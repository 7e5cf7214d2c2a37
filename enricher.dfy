/**
 * The company classifier (Enricher.kt): an ordered table of substring
 * rules over the lower-cased domain, then the blocklist, then a default.
 * The blocklist is passed in as the set of blocked domains.
 */
module Enricher {
  import opened Wrappers
  import Blocklist

  /** What the dashboard shows for a domain: owner, kind of service, and an icon tag. */
  datatype CompanyInfo = CompanyInfo(name: string, category: string, iconRes: string)

  /** One row of the table: the substrings that select it and the company they mean. */
  datatype Rule = Rule(needles: seq<string>, info: CompanyInfo)

  const Google := CompanyInfo("Google LLC", "Services & Search", "G")
  const Meta := CompanyInfo("Meta Platforms", "Social Network", "F")
  const Vk := CompanyInfo("VK Corp", "Social Network", "V")
  const Yandex := CompanyInfo("Yandex", "Search & Services", "Y")
  const WhatsApp := CompanyInfo("WhatsApp", "Messenger", "W")
  const Telegram := CompanyInfo("Telegram", "Messenger", "T")
  const TikTok := CompanyInfo("TikTok", "Social Video", "TT")
  const Apple := CompanyInfo("Apple Inc.", "Cloud Services", "A")
  const Microsoft := CompanyInfo("Microsoft", "OS & Services", "M")
  const Amazon := CompanyInfo("Amazon AWS", "Cloud Hosting", "AWS")
  /** A blocked domain that no rule names. */
  const AdNetwork := CompanyInfo("Ad Network", "Tracker / Ads", "AD")
  /** Everything else. */
  const UnknownHost := CompanyInfo("Unknown Host", "Web / Content", "?")

  /** The substring rules, in the order they are tried. */
  const Rules: seq<Rule> := [
    Rule(["google", "gstatic", "1e100"], Google),
    Rule(["facebook", "fbcdn", "instagram"], Meta),
    Rule(["vk.com", "userapi", "vkuser"], Vk),
    Rule(["yandex", "ya.ru"], Yandex),
    Rule(["whatsapp"], WhatsApp),
    Rule(["telegram", "t.me"], Telegram),
    Rule(["tiktok", "bytedance"], TikTok),
    Rule(["apple", "icloud"], Apple),
    Rule(["microsoft", "live.com"], Microsoft),
    Rule(["amazon", "aws"], Amazon)
  ]

  /** Every answer the classifier can give. */
  const Outcomes: seq<CompanyInfo> :=
    [Google, Meta, Vk, Yandex, WhatsApp, Telegram, TikTok, Apple, Microsoft, Amazon, AdNetwork, UnknownHost]

  /** `lowercase()` on one character, for ASCII letters. */
  function Lower(c: char): (l: char)
    ensures 'A' <= c <= 'Z' ==> l as int == c as int + 32
    ensures !('A' <= c <= 'Z') ==> l == c
  {
    if 'A' <= c <= 'Z' then (c as int + 32) as char else c
  }

  /** `lowercase()` on a string, character by character. */
  function LowerCase(s: string): (r: string)
    ensures |r| == |s|
    ensures forall i :: 0 <= i < |r| ==> r[i] == Lower(s[i])
    ensures forall i :: 0 <= i < |r| ==> !('A' <= r[i] <= 'Z')
  {
    seq(|s|, i requires 0 <= i < |s| => Lower(s[i]))
  }

  /** Lower-casing twice is lower-casing once. */
  lemma LowerCaseIdempotent(s: string)
    ensures LowerCase(LowerCase(s)) == LowerCase(s)
  {
    assert forall i :: 0 <= i < |s| ==> LowerCase(LowerCase(s))[i] == LowerCase(s)[i];
  }

  /** `String.contains`: `n` occurs in `s` at some offset; tried from the front. */
  predicate Contains(s: string, n: string)
    decreases |s|
  {
    n <= s || (|s| > 0 && Contains(s[1..], n))
  }

  /** Contains holds exactly when `n` occurs at some offset of `s`. */
  lemma {:induction false} ContainsAt(s: string, n: string)
    ensures Contains(s, n) <==> exists k :: 0 <= k <= |s| && n <= s[k..]
    decreases |s|
  {
    assert s[0..] == s;
    if |s| > 0 {
      ContainsAt(s[1..], n);
      if Contains(s[1..], n) {
        var k :| 0 <= k <= |s| - 1 && n <= s[1..][k..];
        assert s[1..][k..] == s[k + 1..];
      }
      if k :| 0 <= k <= |s| && n <= s[k..] {
        if k > 0 {
          assert s[1..][k - 1..] == s[k..];
        }
      }
    }
  }

  /** A character of `n` that `s` lacks rules out every occurrence of `n` in `s`. */
  lemma {:induction false} MissingChar(s: string, n: string, i: nat)
    requires i < |n| && n[i] !in s
    ensures !Contains(s, n)
    decreases |s|
  {
    if |s| > 0 {
      MissingChar(s[1..], n, i);
    }
  }

  /** The rule fires: the domain contains one of its needles. */
  predicate Fires(rule: Rule, d: string)
  {
    exists k :: 0 <= k < |rule.needles| && Contains(d, rule.needles[k])
  }

  /** The company of the first rule of `rules` that fires on `d`, if any. */
  function FirstMatch(rules: seq<Rule>, d: string): (r: Option<CompanyInfo>)
    ensures r.Some? <==> exists k :: 0 <= k < |rules| && Fires(rules[k], d)
    ensures r.Some? ==> exists k :: 0 <= k < |rules| && Fires(rules[k], d) && r.value == rules[k].info
  {
    if |rules| == 0 then None
    else if Fires(rules[0], d) then Some(rules[0].info)
    else
      var r := FirstMatch(rules[1..], d);
      assert forall k :: 1 <= k < |rules| ==> rules[k] == rules[1..][k - 1];
      r
  }

  /** The first rule that fires decides: every earlier one is skipped. */
  lemma {:induction false} FirstMatchAt(rules: seq<Rule>, d: string, k: nat)
    requires k < |rules| && Fires(rules[k], d)
    requires forall j :: 0 <= j < k ==> !Fires(rules[j], d)
    ensures FirstMatch(rules, d) == Some(rules[k].info)
    decreases k
  {
    if k > 0 {
      FirstMatchAt(rules[1..], d, k - 1);
    }
  }

  /** identifyCompany: the first rule that fires on the lower-cased domain, else the blocklist on the domain as given, else unknown. */
  function IdentifyCompany(domain: string, blocked: set<string>): (c: CompanyInfo)
    ensures c in Outcomes
  {
    match FirstMatch(Rules, LowerCase(domain))
    case Some(info) => info
    case None => if domain in blocked then AdNetwork else UnknownHost
  }

  /** The twelve outcomes are pairwise different: their icon tags already differ. */
  lemma OutcomesDistinct()
    ensures |Outcomes| == 12
    ensures forall i, j :: 0 <= i < j < |Outcomes| ==> Outcomes[i] != Outcomes[j]
  {
    var tags := ["G", "F", "V", "Y", "W", "T", "TT", "A", "M", "AWS", "AD", "?"];
    assert forall i :: 0 <= i < |Outcomes| ==> Outcomes[i].iconRes == tags[i];
    forall i, j | 0 <= i < j < |tags|
      ensures tags[i] != tags[j]
    {
      assert tags[i][0] != tags[j][0] || |tags[i]| != |tags[j]|;
    }
  }

  /** The rules name different companies, and none of them is one of the two fall-through answers. */
  lemma RulesDistinct()
    ensures forall i, j :: 0 <= i < j < |Rules| ==> Rules[i].info != Rules[j].info
    ensures forall i :: 0 <= i < |Rules| ==> Rules[i].info != AdNetwork && Rules[i].info != UnknownHost
  {
    OutcomesDistinct();
    assert forall i :: 0 <= i < |Rules| ==> Rules[i].info == Outcomes[i];
  }

  /** With pairwise different companies, rule `k`'s company comes out exactly when rule `k` is the first to fire. */
  lemma {:induction false} FirstMatchIs(rules: seq<Rule>, d: string, k: nat)
    requires k < |rules|
    requires forall i, j :: 0 <= i < j < |rules| ==> rules[i].info != rules[j].info
    ensures FirstMatch(rules, d) == Some(rules[k].info) <==>
      Fires(rules[k], d) && forall j :: 0 <= j < k ==> !Fires(rules[j], d)
  {
    if Fires(rules[k], d) && forall j :: 0 <= j < k ==> !Fires(rules[j], d) {
      FirstMatchAt(rules, d, k);
    }
    if FirstMatch(rules, d) == Some(rules[k].info) {
      var m := FirstFiring(rules, d);
      assert rules[m].info == rules[k].info;
    }
  }

  /** When some rule fires, FirstMatch reports the first one that does. */
  lemma {:induction false} FirstFiring(rules: seq<Rule>, d: string) returns (m: nat)
    requires FirstMatch(rules, d).Some?
    ensures m < |rules| && Fires(rules[m], d) && FirstMatch(rules, d) == Some(rules[m].info)
    ensures forall j :: 0 <= j < m ==> !Fires(rules[j], d)
    decreases |rules|
  {
    if Fires(rules[0], d) {
      m := 0;
    } else {
      var m' := FirstFiring(rules[1..], d);
      m := m' + 1;
      assert forall j :: 1 <= j <= m ==> rules[j] == rules[1..][j - 1];
    }
  }

  /**
   * Rule `k` decides exactly when it fires on the lower-cased domain and no
   * earlier rule does; the blocklist is not consulted then.
   */
  lemma IdentifyByRule(domain: string, blocked: set<string>, k: nat)
    requires k < |Rules|
    ensures IdentifyCompany(domain, blocked) == Rules[k].info <==>
      Fires(Rules[k], LowerCase(domain)) && forall j :: 0 <= j < k ==> !Fires(Rules[j], LowerCase(domain))
  {
    RulesDistinct();
    FirstMatchIs(Rules, LowerCase(domain), k);
  }

  /** Ahead of the blocklist: a blocked domain is an ad network only when no rule fires. */
  lemma IdentifyByBlocklist(domain: string, blocked: set<string>)
    ensures IdentifyCompany(domain, blocked) == AdNetwork <==>
      (forall k :: 0 <= k < |Rules| ==> !Fires(Rules[k], LowerCase(domain))) && domain in blocked
    ensures IdentifyCompany(domain, blocked) == UnknownHost <==>
      (forall k :: 0 <= k < |Rules| ==> !Fires(Rules[k], LowerCase(domain))) && domain !in blocked
  {
  }

  /** When a rule fires, the answer ignores letter case and the blocklist. */
  lemma IdentifyCaseInsensitive(a: string, b: string, blockedA: set<string>, blockedB: set<string>)
    requires LowerCase(a) == LowerCase(b)
    requires exists k :: 0 <= k < |Rules| && Fires(Rules[k], LowerCase(a))
    ensures IdentifyCompany(a, blockedA) == IdentifyCompany(b, blockedB)
  {
  }

  /** Any domain naming Google is Google's, whatever else it names (first match wins). */
  lemma GoogleFirst(domain: string, blocked: set<string>)
    requires Contains(LowerCase(domain), "google")
    ensures IdentifyCompany(domain, blocked) == Google
  {
    assert Fires(Rules[0], LowerCase(domain)) by {
      assert Rules[0].needles[0] == "google";
    }
    FirstMatchAt(Rules, LowerCase(domain), 0);
  }

  /**
   * With the fallback blocklist loaded, the blocked "facebook.com" is
   * reported as Meta, not as an ad network: the rules come first.
   */
  lemma BlockedFacebookIsMeta(domain: string)
    requires domain == "facebook.com"
    ensures domain in Blocklist.Fallback
    ensures IdentifyCompany(domain, Blocklist.Fallback) == Meta
  {
    assert LowerCase(domain) == domain;
    FacebookRules(domain);
    FirstMatchAt(Rules, domain, 1);
  }

  /** On "facebook.com" the Google rule does not fire and the Meta rule does. */
  lemma FacebookRules(d: string)
    requires d == "facebook.com"
    ensures !Fires(Rules[0], d) && Fires(Rules[1], d)
  {
    MissingChar(d, Rules[0].needles[0], 0);
    MissingChar(d, Rules[0].needles[1], 0);
    MissingChar(d, Rules[0].needles[2], 0);
    assert Contains(d, Rules[1].needles[0]) by {
      assert Rules[1].needles[0] <= d;
    }
  }

  /** The blocklist test uses the domain as given: a blocked lower-case name written in capitals is unknown. */
  lemma BlocklistIsCaseSensitive()
    ensures IdentifyCompany("X", {"x"}) == UnknownHost
  {
    var d := LowerCase("X");
    assert d == "x";
    forall k | 0 <= k < |Rules|
      ensures !Fires(Rules[k], d)
    {
      forall j | 0 <= j < |Rules[k].needles|
        ensures !Contains(d, Rules[k].needles[j])
      {
        var n := Rules[k].needles[j];
        assert |n| >= 3 && n[0] != 'x';
        assert !(n <= d);
      }
    }
  }

  /** fakeIpResolution: the same text for every domain. */
  function FakeIpResolution(domain: string): (r: string)
    ensures r == "DNS Lookup"
  {
    "DNS Lookup"
  }
}
