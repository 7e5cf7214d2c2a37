/**
 * The tracker blocklist (BlocklistManager.kt): a grow-only set of domain
 * names filled from a hosts-format text, with a three-domain fallback when
 * the fetch fails, and exact-match lookup. The download itself is a
 * parameter: the fetched text, or None when reading the URL threw.
 */
module Blocklist {
  import opened Wrappers
  import Labels

  /** Kotlin's Char.isWhitespace, which String.trim() uses. */
  predicate IsWhitespace(c: char)
  {
    || c == ' ' || '\t' <= c <= '\r' || '\U{1C}' <= c <= '\U{1F}'
    || c == '\U{A0}' || c == '\U{1680}' || '\U{2000}' <= c <= '\U{200A}'
    || c == '\U{2028}' || c == '\U{2029}' || c == '\U{202F}' || c == '\U{205F}' || c == '\U{3000}'
  }

  /** The regular-expression class \s: space, tab, line feed, vertical tab, form feed, carriage return. */
  predicate IsRegexSpace(c: char)
  {
    c == ' ' || '\t' <= c <= '\r'
  }

  /** How many whitespace characters `s` starts with. */
  function LeadingWhitespace(s: string): (n: nat)
    ensures n <= |s|
    ensures forall i :: 0 <= i < n ==> IsWhitespace(s[i])
    ensures n < |s| ==> !IsWhitespace(s[n])
    decreases |s|
  {
    if |s| > 0 && IsWhitespace(s[0]) then 1 + LeadingWhitespace(s[1..]) else 0
  }

  /** How many whitespace characters `s` ends with. */
  function TrailingWhitespace(s: string): (n: nat)
    ensures n <= |s|
    ensures forall i :: |s| - n <= i < |s| ==> IsWhitespace(s[i])
    ensures n < |s| ==> !IsWhitespace(s[|s| - n - 1])
    decreases |s|
  {
    if |s| > 0 && IsWhitespace(s[|s| - 1]) then 1 + TrailingWhitespace(s[..|s| - 1]) else 0
  }

  /** String.trim(): whitespace removed from both ends. */
  function Trim(s: string): string
  {
    var a := LeadingWhitespace(s);
    s[a..|s| - TrailingWhitespace(s[a..])]
  }

  /** The trimmed line neither starts nor ends with whitespace. */
  lemma TrimEnds(s: string)
    ensures |Trim(s)| > 0 ==> !IsWhitespace(Trim(s)[0]) && !IsWhitespace(Trim(s)[|Trim(s)| - 1])
  {
    var a := LeadingWhitespace(s);
    var u := s[a..];
    var t := Trim(s);
    if |t| > 0 {
      assert t[0] == u[0];
      assert t[|t| - 1] == u[|u| - TrailingWhitespace(u) - 1];
    }
  }

  /** Every character trim cuts off is whitespace. */
  lemma TrimCutsWhitespace(s: string)
    ensures var a := LeadingWhitespace(s);
      forall i :: 0 <= i < |s| && (i < a || a + |Trim(s)| <= i) ==> IsWhitespace(s[i])
  {
    var a := LeadingWhitespace(s);
    var u := s[a..];
    var t := Trim(s);
    forall i | 0 <= i < |s| && a + |t| <= i
      ensures IsWhitespace(s[i])
    {
      assert s[i] == u[i - a];
    }
  }

  /**
   * split("\\s+".toRegex()): the pieces between maximal runs of \s. Leading
   * and trailing runs give empty first and last pieces, as Kotlin's split keeps them.
   */
  function Pieces(s: string): (parts: seq<string>)
    ensures |parts| >= 1
    decreases |s|
  {
    if |s| == 0 then [""]
    else
      var rest := Pieces(s[1..]);
      if IsRegexSpace(s[0]) then
        if |s| > 1 && IsRegexSpace(s[1]) then rest else [""] + rest
      else [[s[0]] + rest[0]] + rest[1..]
  }

  predicate NoRegexSpace(s: string)
  {
    forall i :: 0 <= i < |s| ==> !IsRegexSpace(s[i])
  }

  /** No piece contains a \s character. */
  lemma {:induction false} PiecesFree(s: string)
    ensures forall k :: 0 <= k < |Pieces(s)| ==> NoRegexSpace(Pieces(s)[k])
    decreases |s|
  {
    if |s| > 0 {
      PiecesFree(s[1..]);
      var rest := Pieces(s[1..]);
      var p := Pieces(s);
      if !IsRegexSpace(s[0]) {
        assert p == [[s[0]] + rest[0]] + rest[1..];
        forall k | 0 <= k < |p| ensures NoRegexSpace(p[k]) {
          if k > 0 {
            assert p[k] == rest[k];
          } else {
            assert NoRegexSpace(rest[0]);
          }
        }
      } else if !(|s| > 1 && IsRegexSpace(s[1])) {
        assert p == [""] + rest;
      }
    }
  }

  /**
   * No piece contains a \s character; the pieces strictly between the first
   * and the last are non-empty, and so are the first and the last when the
   * string does not start, respectively end, with \s.
   */
  lemma {:induction false} PiecesShape(s: string)
    ensures forall k :: 0 <= k < |Pieces(s)| ==> NoRegexSpace(Pieces(s)[k])
    ensures forall k :: 0 < k < |Pieces(s)| - 1 ==> |Pieces(s)[k]| > 0
    ensures |s| > 0 && !IsRegexSpace(s[0]) ==> |Pieces(s)[0]| > 0
    ensures |s| > 0 && !IsRegexSpace(s[|s| - 1]) ==> |Pieces(s)[|Pieces(s)| - 1]| > 0
    decreases |s|
  {
    PiecesFree(s);
    if |s| > 0 {
      PiecesShape(s[1..]);
      var rest := Pieces(s[1..]);
      var p := Pieces(s);
      if !IsRegexSpace(s[0]) {
        assert p == [[s[0]] + rest[0]] + rest[1..];
        forall k | 0 < k < |p| - 1 ensures |p[k]| > 0 {
          assert p[k] == rest[k];
        }
        if |s| > 1 {
          assert s[1..][|s| - 2] == s[|s| - 1];
        }
      } else if |s| > 1 && IsRegexSpace(s[1]) {
        assert s[1..][|s| - 2] == s[|s| - 1];
      } else {
        assert p == [""] + rest;
        forall k | 0 < k < |p| - 1 ensures |p[k]| > 0 {
          assert p[k] == rest[k - 1];
        }
        if |s| > 1 {
          assert s[1..][|s| - 2] == s[|s| - 1];
        }
      }
    }
  }

  lemma {:induction false} PiecesPrefix(w: string, s: string)
    requires NoRegexSpace(w)
    ensures Pieces(w + s) == [w + Pieces(s)[0]] + Pieces(s)[1..]
    decreases |w|
  {
    if |w| > 0 {
      PiecesPrefix(w[1..], s);
      assert (w + s)[0] == w[0] && !IsRegexSpace(w[0]);
      assert (w + s)[1..] == w[1..] + s;
      assert [w[0]] + (w[1..] + Pieces(s)[0]) == w + Pieces(s)[0];
    } else {
      assert w + s == s;
      assert w + Pieces(s)[0] == Pieces(s)[0];
      assert [Pieces(s)[0]] + Pieces(s)[1..] == Pieces(s);
    }
  }

  lemma {:induction false} JoinFront(parts: seq<string>)
    requires |parts| >= 2
    ensures Labels.Join(parts, ' ') == parts[0] + " " + Labels.Join(parts[1..], ' ')
    decreases |parts|
  {
    if |parts| > 2 {
      JoinFront(parts[..|parts| - 1]);
      assert parts[..|parts| - 1][1..] == parts[1..][..|parts| - 2];
    }
  }

  /** Round trip: fields written out with single spaces split back into the same fields. */
  lemma {:induction false} PiecesOfSpacedFields(fields: seq<string>)
    requires |fields| >= 1
    requires forall k :: 0 <= k < |fields| ==> |fields[k]| > 0 && NoRegexSpace(fields[k])
    ensures Pieces(Labels.Join(fields, ' ')) == fields
    decreases |fields|
  {
    if |fields| == 1 {
      PiecesPrefix(fields[0], "");
      assert fields[0] + "" == fields[0];
    } else {
      var rest := fields[1..];
      var j := Labels.Join(rest, ' ');
      PiecesOfSpacedFields(rest);
      JoinFront(fields);
      Labels.JoinEnds(rest, ' ');
      assert j[0] == rest[0][0];
      assert Pieces(" " + j) == [""] + rest by {
        assert (" " + j)[1..] == j;
      }
      PiecesPrefix(fields[0], " " + j);
      assert fields[0] + " " + j == fields[0] + (" " + j);
      assert fields[0] + "" == fields[0];
      assert [fields[0]] + rest == fields;
    }
  }

  /** lineSequence(): the text cut at "\r\n", "\n" and "\r"; a text ending in a break ends with an empty line. */
  function Lines(text: string): (lines: seq<string>)
    ensures |lines| >= 1
    decreases |text|
  {
    if |text| == 0 then [""]
    else if text[0] == '\r' && |text| > 1 && text[1] == '\n' then [""] + Lines(text[2..])
    else if text[0] == '\n' || text[0] == '\r' then [""] + Lines(text[1..])
    else
      var rest := Lines(text[1..]);
      [[text[0]] + rest[0]] + rest[1..]
  }

  /** No line contains a line break. */
  lemma {:induction false} LinesHaveNoBreaks(text: string)
    ensures forall k, i :: 0 <= k < |Lines(text)| && 0 <= i < |Lines(text)[k]| ==>
      Lines(text)[k][i] != '\n' && Lines(text)[k][i] != '\r'
    decreases |text|
  {
    if |text| > 0 {
      if text[0] == '\r' && |text| > 1 && text[1] == '\n' {
        LinesHaveNoBreaks(text[2..]);
      } else {
        LinesHaveNoBreaks(text[1..]);
      }
    }
  }

  /** The domain one hosts line contributes: the second whitespace-separated field of a trimmed, non-comment line. */
  function ParseLine(line: string): Option<string>
  {
    var trimmed := Trim(line);
    if |trimmed| > 0 && trimmed[0] != '#' then
      var parts := Pieces(trimmed);
      if |parts| >= 2 then Some(parts[1]) else None
    else None
  }

  /**
   * A contributed domain is a non-empty token holding no \s character, and
   * a line written as single-space-separated tokens whose first token does
   * not start with '#' contributes exactly its second token.
   */
  lemma ParseLineShape(line: string)
    ensures ParseLine(line).Some? ==> |ParseLine(line).value| > 0 && NoRegexSpace(ParseLine(line).value)
  {
    var trimmed := Trim(line);
    if |trimmed| > 0 && trimmed[0] != '#' {
      TrimEnds(line);
      PiecesShape(trimmed);
      var parts := Pieces(trimmed);
      if |parts| == 2 {
        assert parts[1] == parts[|parts| - 1];
      }
    }
  }

  /** A token: a non-empty run of characters none of which is whitespace. */
  predicate Token(w: string)
  {
    |w| > 0 && forall i :: 0 <= i < |w| ==> !IsWhitespace(w[i])
  }

  /**
   * A line written as tokens separated by single spaces, the first not
   * starting with '#', contributes exactly its second token, and nothing
   * when it has only one.
   */
  lemma ParseLineOfTokens(fields: seq<string>)
    requires |fields| >= 1
    requires forall k :: 0 <= k < |fields| ==> Token(fields[k])
    requires |fields[0]| > 0 && fields[0][0] != '#'
    ensures ParseLine(Labels.Join(fields, ' '))
      == if |fields| >= 2 then Some(fields[1]) else None
  {
    var line := Labels.Join(fields, ' ');
    Labels.JoinEnds(fields, ' ');
    var last := fields[|fields| - 1];
    assert line[0] == fields[0][0];
    assert line[|line| - 1] == last[|last| - 1] by {
      assert line[|line| - |last|..][|last| - 1] == last[|last| - 1];
    }
    assert LeadingWhitespace(line) == 0;
    assert line[0..] == line;
    assert TrailingWhitespace(line) == 0;
    assert Trim(line) == line;
    forall k | 0 <= k < |fields| ensures |fields[k]| > 0 && NoRegexSpace(fields[k]) {
      assert Token(fields[k]);
    }
    PiecesOfSpacedFields(fields);
  }

  /** What each line contributes, line by line. */
  function ParsedLines(lines: seq<string>): (parsed: seq<Option<string>>)
    ensures |parsed| == |lines| && forall k :: 0 <= k < |lines| ==> parsed[k] == ParseLine(lines[k])
  {
    seq(|lines|, k requires 0 <= k < |lines| => ParseLine(lines[k]))
  }

  /** The values present in a sequence of optional values. */
  function Present(results: seq<Option<string>>): set<string>
    decreases |results|
  {
    if |results| == 0 then {}
    else
      var last := results[|results| - 1];
      Present(results[..|results| - 1]) + (if last.Some? then {last.value} else {})
  }

  /** A value is present exactly when some entry holds it. */
  lemma {:induction false} PresentMembers(results: seq<Option<string>>, d: string)
    ensures d in Present(results) <==> exists k :: 0 <= k < |results| && results[k] == Some(d)
    decreases |results|
  {
    if |results| > 0 {
      var init := results[..|results| - 1];
      PresentMembers(init, d);
      if d in Present(init) {
        var k :| 0 <= k < |init| && init[k] == Some(d);
        assert results[k] == init[k];
      }
      if exists k :: 0 <= k < |results| && results[k] == Some(d) {
        var k :| 0 <= k < |results| && results[k] == Some(d);
        if k < |init| {
          assert init[k] == results[k];
        }
      }
    }
  }

  /** One more entry adds its value, if it holds one. */
  lemma PresentStep(results: seq<Option<string>>, i: nat)
    requires i < |results|
    ensures Present(results[..i + 1])
      == Present(results[..i]) + (if results[i].Some? then {results[i].value} else {})
  {
    assert results[..i + 1][..i] == results[..i];
  }

  /** Duplicates count once: never more values than entries. */
  lemma {:induction false} PresentSize(results: seq<Option<string>>)
    ensures |Present(results)| <= |results|
    decreases |results|
  {
    if |results| > 0 {
      PresentSize(results[..|results| - 1]);
    }
  }

  /** The domains a hosts text, cut into lines, contributes. */
  function HostsDomains(lines: seq<string>): set<string>
  {
    Present(ParsedLines(lines))
  }

  /**
   * A domain is loaded exactly when some line contributes it, and there are
   * never more domains than lines.
   */
  lemma HostsDomainsMembers(lines: seq<string>, d: string)
    ensures var parsed := ParsedLines(lines);
      d in HostsDomains(lines) <==> exists k :: 0 <= k < |parsed| && parsed[k] == Some(d)
    ensures |HostsDomains(lines)| <= |lines|
  {
    var parsed := ParsedLines(lines);
    PresentMembers(parsed, d);
    PresentSize(parsed);
  }

  /** The three domains added when the download fails. */
  const Fallback: set<string> := {"google-analytics.com", "doubleclick.net", "facebook.com"}

  /** The process-wide blocklist object. */
  class BlocklistManager {
    var blockedDomains: set<string>

    constructor ()
      ensures blockedDomains == {}
    {
      blockedDomains := {};
    }

    /**
     * loadBlocklist: adds the domain of every contributing line of the
     * fetched text, or the fallback domains when the fetch threw. Either way
     * the set only grows: a load merges, it never replaces.
     */
    method LoadBlocklist(fetched: Option<string>)
      modifies this
      ensures fetched.None? ==> blockedDomains == old(blockedDomains) + Fallback
      ensures fetched.Some? ==> blockedDomains == old(blockedDomains) + HostsDomains(Lines(fetched.value))
    {
      match fetched {
        case None =>
          blockedDomains := blockedDomains + {"google-analytics.com", "doubleclick.net", "facebook.com"};
        case Some(text) =>
          var lines := Lines(text);
          ghost var parsed := ParsedLines(lines);
          for i := 0 to |lines|
            invariant blockedDomains == old(blockedDomains) + Present(parsed[..i])
          {
            PresentStep(parsed, i);
            var trimmed := Trim(lines[i]);
            if |trimmed| > 0 && trimmed[0] != '#' {
              var parts := Pieces(trimmed);
              if |parts| >= 2 {
                blockedDomains := blockedDomains + {parts[1]};
              }
            }
          }
          assert parsed[..|lines|] == parsed;
      }
    }

    /** isTracker: exact, case-sensitive membership. */
    predicate IsTracker(domain: string)
      reads this
    {
      domain in blockedDomains
    }

    /** getSize: the number of distinct domains. */
    function GetSize(): nat
      reads this
    {
      |blockedDomains|
    }
  }

  /** Loading the same text again changes nothing, and every earlier entry survives a load. */
  method ReloadChangesNothing(b: BlocklistManager, text: string)
    modifies b
    ensures b.blockedDomains == old(b.blockedDomains) + HostsDomains(Lines(text))
    ensures old(b.blockedDomains) <= b.blockedDomains
  {
    b.LoadBlocklist(Some(text));
    ghost var once := b.blockedDomains;
    b.LoadBlocklist(Some(text));
    assert b.blockedDomains == once;
  }

  /**
   * A fresh start whose download fails: the blocklist then holds exactly
   * the three fallback domains, and lookups are exact, so neither another
   * letter case nor a sub-domain of a listed domain is a tracker.
   */
  method FallbackStart() returns (size: nat, listed: bool, otherCase: bool, subDomain: bool)
    ensures size == 3 && listed && !otherCase && !subDomain
  {
    var b := new BlocklistManager();
    b.LoadBlocklist(None);
    size := b.GetSize();
    listed := b.IsTracker("doubleclick.net");
    otherCase := b.IsTracker("DoubleClick.net");
    subDomain := b.IsTracker("ad.doubleclick.net");
  }
}
