/** The HQ's analysis engine: manufacturer lookup by OUI, security-code
    labels, and the rule-driven tactical tags of one observation. The vendor
    table, the security standards and the tag rules come from configuration
    files and are parameters here. */
module Analyser {
  import opened Common
  import opened Text

  // ----- vendor lookup -----

  /** The OUI key of a MAC address: colons removed, upper-cased, the first
      six characters. */
  function Oui(mac: string): (r: string)
    ensures |r| <= 6 && !HasChar(r, ':')
    ensures forall i :: 0 <= i < |r| ==> !IsLower(r[i])
    ensures |RemoveChar(mac, ':')| >= 6 ==> |r| == 6
  {
    var u := Upper(RemoveChar(mac, ':'));
    assert !HasChar(u, ':') by {
      forall i | 0 <= i < |u| ensures u[i] != ':' {
        assert !HasChar(RemoveChar(mac, ':'), ':');
        assert RemoveChar(mac, ':')[i] != ':';
      }
    }
    Prefix(u, 6)
  }

  /** The manufacturer registered for the address's OUI, or "Unknown Vendor". */
  function GetVendor(vendors: map<string, string>, mac: string): (r: string)
    ensures Oui(mac) in vendors ==> r == vendors[Oui(mac)]
    ensures Oui(mac) !in vendors ==> r == "Unknown Vendor"
  {
    var oui := Oui(mac);
    if oui in vendors then vendors[oui] else "Unknown Vendor"
  }

  /** Removing colons commutes with lower-casing: a colon is not a letter. */
  lemma {:induction false} RemoveColonLower(s: string)
    ensures RemoveChar(Lower(s), ':') == Lower(RemoveChar(s, ':'))
    decreases |s|
  {
    if s != [] {
      var x, t := s[0], s[1..];
      assert s == [x] + t;
      LowerCons(x, t);
      RemoveColonLower(t);
      RemoveCharCons(LowerChar(x), Lower(t), ':');
      RemoveCharCons(x, t, ':');
      if x != ':' {
        LowerCons(x, RemoveChar(t, ':'));
      }
    }
  }

  /** Removing colons commutes with upper-casing. */
  lemma {:induction false} RemoveColonUpper(s: string)
    ensures RemoveChar(Upper(s), ':') == Upper(RemoveChar(s, ':'))
    decreases |s|
  {
    if s != [] {
      var x, t := s[0], s[1..];
      assert s == [x] + t;
      UpperCons(x, t);
      RemoveColonUpper(t);
      RemoveCharCons(UpperChar(x), Upper(t), ':');
      RemoveCharCons(x, t, ':');
      if x != ':' {
        UpperCons(x, RemoveChar(t, ':'));
      }
    }
  }

  /** The OUI key does not depend on the case the address is written in. */
  lemma OuiIgnoresCase(mac: string)
    ensures Oui(Lower(mac)) == Oui(mac)
    ensures Oui(Upper(mac)) == Oui(mac)
  {
    RemoveColonLower(mac);
    RemoveColonUpper(mac);
    var t := RemoveChar(mac, ':');
    assert Upper(Lower(t)) == Upper(t);
    assert Upper(Upper(t)) == Upper(t);
  }

  /** The OUI key does not depend on where colons are written. */
  lemma OuiIgnoresColon(a: string, b: string)
    ensures Oui(a + ":" + b) == Oui(a + b)
  {
    RemoveCharAppend(a + ":", b, ':');
    RemoveCharAppend(a, ":", ':');
    RemoveCharAppend(a, b, ':');
    assert RemoveChar(":", ':') == [];
    assert RemoveChar(a, ':') + [] == RemoveChar(a, ':');
  }

  /** Two spellings of an address that differ in letter case or in colons
      name the same manufacturer. */
  lemma VendorIgnoresCaseAndColons(vendors: map<string, string>, mac: string, a: string, b: string)
    ensures GetVendor(vendors, Lower(mac)) == GetVendor(vendors, mac)
    ensures GetVendor(vendors, Upper(mac)) == GetVendor(vendors, mac)
    ensures GetVendor(vendors, a + ":" + b) == GetVendor(vendors, a + b)
  {
    OuiIgnoresCase(mac);
    OuiIgnoresColon(a, b);
  }

  // ----- security labels -----

  /** The configured security standards: the key is the decimal code; an
      entry may lack its label. */
  type Standards = map<string, Option<string>>

  function UnknownLabel(code: int): string
  {
    "Unknown (" + IntToString(code) + ")"
  }

  /** The configured label of the standard keyed by the decimal spelling of
      `code`, or "Unknown (<code>)" when there is no entry or it has no label. */
  function GetSecurityLabel(standards: Standards, code: int): (r: string)
    ensures IntToString(code) in standards && standards[IntToString(code)].Some? ==> r == standards[IntToString(code)].value
    ensures !(IntToString(code) in standards && standards[IntToString(code)].Some?) ==> r == UnknownLabel(code)
  {
    var key := IntToString(code);
    if key in standards then standards[key].GetOr(UnknownLabel(code)) else UnknownLabel(code)
  }

  /** The lookup is by exact spelling: an entry under any key other than
      `str(code)` never affects the code's label, even one that reads as the
      same number ("07" or "-0"). */
  lemma SecurityLabelIgnoresOtherKeys(standards: Standards, code: int, key: string, entry: Option<string>)
    requires key != IntToString(code)
    ensures GetSecurityLabel(standards[key := entry], code) == GetSecurityLabel(standards, code)
  {
  }

  /** A key with a leading zero is one of those other keys: "07" reads as 7
      but is not the spelling of 7, so the label of code 7 ignores it. */
  lemma LeadingZeroKeyIgnored(standards: Standards, entry: Option<string>)
    ensures ParseInt("07") == Some(7)
    ensures GetSecurityLabel(standards["07" := entry], 7) == GetSecurityLabel(standards, 7)
  {
    assert AllDigits("07");
    assert "07"[..1] == "0" && "0"[..0] == "";
    assert DigitsValue("07") == 7;
    assert IntToString(7) == "7";
    SecurityLabelIgnoresOtherKeys(standards, 7, "07", entry);
  }

  /** Codes without a configured label stay distinguishable: their fallback
      labels differ. */
  lemma UnknownLabelsDistinct(c1: int, c2: int)
    requires c1 != c2
    ensures UnknownLabel(c1) != UnknownLabel(c2)
  {
    if UnknownLabel(c1) == UnknownLabel(c2) {
      var s1, s2 := IntToString(c1), IntToString(c2);
      assert |s1| == |s2|;
      assert s1 == UnknownLabel(c1)[9..9 + |s1|];
      assert s2 == UnknownLabel(c2)[9..9 + |s2|];
      IntToStringInjective(c1, c2);
    }
  }

  // ----- tactical tags -----

  /** A cell of the row being classified. */
  datatype Value = Null | IntVal(i: int) | TextVal(s: string) | BoolVal(b: bool)

  /** A row of observations, by column name. */
  type Row = map<string, Value>

  /** `str(v)`. */
  function PyStr(v: Value): (s: string)
    ensures v.IntVal? ==> ParseInt(s) == Some(v.i)
    ensures v.TextVal? ==> s == v.s
  {
    match v
    case Null => "None"
    case IntVal(i) => IntRoundTrip(i); IntToString(i)
    case TextVal(s) => s
    case BoolVal(b) => if b then "True" else "False"
  }

  function BoolAsInt(b: bool): int { if b then 1 else 0 }

  /** `a == b` on these values: a boolean equals the integer 0 or 1 it
      stands for; values of other different kinds are never equal. */
  predicate PyEquals(a: Value, b: Value): (eq: bool)
    ensures a == b ==> eq
    ensures eq && (a.TextVal? || b.TextVal? || a.Null? || b.Null?) ==> a == b
    ensures a.BoolVal? && b.IntVal? ==> (eq <==> b.i == BoolAsInt(a.b))
  {
    match (a, b)
    case (Null, Null) => true
    case (IntVal(x), IntVal(y)) => x == y
    case (TextVal(x), TextVal(y)) => x == y
    case (BoolVal(x), BoolVal(y)) => x == y
    case (IntVal(x), BoolVal(y)) => x == BoolAsInt(y)
    case (BoolVal(x), IntVal(y)) => BoolAsInt(x) == y
    case _ => false
  }

  lemma PyEqualsIsEquivalence(a: Value, b: Value, c: Value)
    ensures PyEquals(a, a)
    ensures PyEquals(a, b) ==> PyEquals(b, a)
    ensures PyEquals(a, b) && PyEquals(b, c) ==> PyEquals(a, c)
  {
  }

  /** A tag rule, by its configured `source`. */
  datatype Rule =
    | SsidRule(tag: string, keywords: seq<string>)
    | VendorRule(tag: string, keywords: seq<string>)
    | FlagRule(tag: string, field: string, expected: Value)
    | OtherRule(tag: string)

  /** `any(k in hay for k in keywords)`. */
  function AnyContains(keywords: seq<string>, hay: string): (b: bool)
    ensures b <==> exists i :: 0 <= i < |keywords| && Contains(hay, keywords[i])
  {
    if keywords == [] then false
    else Contains(hay, keywords[0]) || AnyContains(keywords[1..], hay)
  }

  /** Whether `rule` fires, given the lower-cased SSID and vendor name. */
  predicate Matches(rule: Rule, ssid: string, vendorName: string, row: Row): (fires: bool)
    ensures fires ==> !rule.OtherRule?
    ensures rule.FlagRule? ==> (fires <==> rule.field in row && PyEquals(row[rule.field], rule.expected))
    ensures rule.SsidRule? ==> (fires <==> exists i :: 0 <= i < |rule.keywords| && Contains(ssid, rule.keywords[i]))
    ensures rule.VendorRule? ==> (fires <==> exists i :: 0 <= i < |rule.keywords| && Contains(vendorName, rule.keywords[i]))
  {
    match rule
    case SsidRule(_, keywords) => AnyContains(keywords, ssid)
    case VendorRule(_, keywords) => AnyContains(keywords, vendorName)
    case FlagRule(_, field, expected) => field in row && PyEquals(row[field], expected)
    case OtherRule(_) => false
  }

  /** The labels of the rules that fire, in rule order. */
  function Tags(rules: seq<Rule>, ssid: string, vendorName: string, row: Row): (tags: seq<string>)
    ensures |tags| <= |rules|
  {
    if rules == [] then []
    else
      var last := rules[|rules| - 1];
      Tags(rules[..|rules| - 1], ssid, vendorName, row) + (if Matches(last, ssid, vendorName, row) then [last.tag] else [])
  }

  /** Rule order is tag order: the tags of a rule list are those of its
      first part followed by those of the rest. */
  lemma {:induction false} TagsAppend(r1: seq<Rule>, r2: seq<Rule>, ssid: string, vendorName: string, row: Row)
    ensures Tags(r1 + r2, ssid, vendorName, row) == Tags(r1, ssid, vendorName, row) + Tags(r2, ssid, vendorName, row)
    decreases |r2|
  {
    if r2 == [] {
      assert r1 + r2 == r1;
    } else {
      var init := r2[..|r2| - 1];
      var r := r1 + r2;
      assert r[..|r| - 1] == r1 + init;
      assert r[|r| - 1] == r2[|r2| - 1];
      TagsAppend(r1, init, ssid, vendorName, row);
    }
  }

  /** The number of rules that fire. */
  function FiringCount(rules: seq<Rule>, ssid: string, vendorName: string, row: Row): nat
  {
    if rules == [] then 0
    else (if Matches(rules[0], ssid, vendorName, row) then 1 else 0) + FiringCount(rules[1..], ssid, vendorName, row)
  }

  /** Each firing rule contributes its label exactly once, and a label is
      among the tags exactly when some rule with that label fires. */
  lemma {:induction false} TagsCharacterised(rules: seq<Rule>, ssid: string, vendorName: string, row: Row, x: string)
    ensures |Tags(rules, ssid, vendorName, row)| == FiringCount(rules, ssid, vendorName, row)
    ensures x in Tags(rules, ssid, vendorName, row) <==>
      exists i :: 0 <= i < |rules| && Matches(rules[i], ssid, vendorName, row) && rules[i].tag == x
    decreases |rules|
  {
    if rules != [] {
      var head, rest := rules[..1], rules[1..];
      assert rules == head + rest;
      TagsAppend(head, rest, ssid, vendorName, row);
      assert head[..0] == [];
      TagsCharacterised(rest, ssid, vendorName, row, x);
      var t := Tags(rules, ssid, vendorName, row);
      if x in t {
        if x in Tags(head, ssid, vendorName, row) {
          assert Matches(rules[0], ssid, vendorName, row) && rules[0].tag == x;
        } else {
          var j :| 0 <= j < |rest| && Matches(rest[j], ssid, vendorName, row) && rest[j].tag == x;
          assert rules[j + 1] == rest[j];
        }
      }
      if exists i :: 0 <= i < |rules| && Matches(rules[i], ssid, vendorName, row) && rules[i].tag == x {
        var i :| 0 <= i < |rules| && Matches(rules[i], ssid, vendorName, row) && rules[i].tag == x;
        if i > 0 {
          assert rest[i - 1] == rules[i];
        }
      }
    }
  }

  /** No tags exactly when no rule fires. */
  lemma {:induction false} NoTagsIffNoRuleFires(rules: seq<Rule>, ssid: string, vendorName: string, row: Row)
    ensures Tags(rules, ssid, vendorName, row) == [] <==> forall i :: 0 <= i < |rules| ==> !Matches(rules[i], ssid, vendorName, row)
    decreases |rules|
  {
    if rules != [] {
      var init := rules[..|rules| - 1];
      NoTagsIffNoRuleFires(init, ssid, vendorName, row);
      if forall i :: 0 <= i < |init| ==> !Matches(init[i], ssid, vendorName, row) {
        if !Matches(rules[|rules| - 1], ssid, vendorName, row) {
          forall i | 0 <= i < |rules| ensures !Matches(rules[i], ssid, vendorName, row) {
            if i < |init| { assert rules[i] == init[i]; }
          }
        }
      } else {
        var i :| 0 <= i < |init| && Matches(init[i], ssid, vendorName, row);
        assert rules[i] == init[i];
      }
    }
  }

  /** A keyword with an upper-case letter never matches: the text it is
      searched in is lower-cased and the keywords are not. */
  lemma UpperCaseKeywordNeverMatches(text: string, keyword: string, k: nat)
    requires k < |keyword| && IsUpper(keyword[k])
    ensures !Contains(Lower(text), keyword)
  {
  }

  /** A keyword rule with no keywords never fires. */
  lemma EmptyKeywordsNeverMatch(tag: string, ssid: string, vendorName: string, row: Row)
    ensures !Matches(SsidRule(tag, []), ssid, vendorName, row)
    ensures !Matches(VendorRule(tag, []), ssid, vendorName, row)
  {
  }

  /** The row can be classified: it has an SSID and a textual MAC. */
  predicate Classifiable(row: Row)
  {
    "ssid" in row && "mac" in row && row["mac"].TextVal?
  }

  /** The classification of a row: the fired labels joined with " | ", or
      the default label ("Stationary AP" when none is configured); `None`
      when looking up the SSID or the vendor raises. */
  function Classify(row: Row, rules: seq<Rule>, vendors: map<string, string>, defaultLabel: Option<string>): (r: Option<string>)
    ensures r.Some? <==> Classifiable(row)
  {
    if !Classifiable(row) then None
    else
      var tags := Tags(rules, Lower(PyStr(row["ssid"])), Lower(GetVendor(vendors, row["mac"].s)), row);
      Some(if tags != [] then Join(tags, " | ") else defaultLabel.GetOr("Stationary AP"))
  }

  /** When no rule fires, the row gets the default classification. */
  lemma DefaultWhenNothingFires(row: Row, rules: seq<Rule>, vendors: map<string, string>, defaultLabel: Option<string>)
    requires Classifiable(row)
    requires forall i :: 0 <= i < |rules| ==> !Matches(rules[i], Lower(PyStr(row["ssid"])), Lower(GetVendor(vendors, row["mac"].s)), row)
    ensures Classify(row, rules, vendors, defaultLabel) == Some(defaultLabel.GetOr("Stationary AP"))
  {
    NoTagsIffNoRuleFires(rules, Lower(PyStr(row["ssid"])), Lower(GetVendor(vendors, row["mac"].s)), row);
  }

  lemma BothFire(first: Rule, second: Rule, ssid: string, vendorName: string, row: Row)
    requires Matches(first, ssid, vendorName, row) && Matches(second, ssid, vendorName, row)
    ensures Tags([first, second], ssid, vendorName, row) == [first.tag, second.tag]
  {
    assert [first, second][..1] == [first];
    assert [first][..0] == [];
  }

  lemma HotspotName()
    ensures Contains(Lower("Free_WiFi_Zone"), "free_wifi")
  {
    var l := Lower("Free_WiFi_Zone");
    assert l[..9] == "free_wifi";
    assert OccursAt(l, "free_wifi", 0);
  }

  /** An open network named like a hotspot that also hides itself is tagged
      both ways, in rule order. */
  lemma HoneypotExample(vendors: map<string, string>)
    ensures Classify(map["ssid" := TextVal("Free_WiFi_Zone"), "mac" := TextVal("aa:bb:cc:dd:ee:ff"), "hidden" := IntVal(1)],
                     [SsidRule("Honeypot?", ["free_wifi"]), FlagRule("Stealth AP", "hidden", IntVal(1))],
                     vendors, None)
      == Some("Honeypot?" + " | " + "Stealth AP")
  {
    var row := map["ssid" := TextVal("Free_WiFi_Zone"), "mac" := TextVal("aa:bb:cc:dd:ee:ff"), "hidden" := IntVal(1)];
    var honeypot, stealth := SsidRule("Honeypot?", ["free_wifi"]), FlagRule("Stealth AP", "hidden", IntVal(1));
    var ssid := Lower(PyStr(row["ssid"]));
    var vendorName := Lower(GetVendor(vendors, row["mac"].s));
    HotspotName();
    assert Matches(honeypot, ssid, vendorName, row);
    assert Matches(stealth, ssid, vendorName, row);
    BothFire(honeypot, stealth, ssid, vendorName, row);
    var tags := Tags([honeypot, stealth], ssid, vendorName, row);
    assert Join(tags, " | ") == "Honeypot?" + " | " + "Stealth AP" by {
      assert tags[1..] == ["Stealth AP"];
    }
    assert Classifiable(row);
    assert [honeypot, stealth] == [SsidRule("Honeypot?", ["free_wifi"]), FlagRule("Stealth AP", "hidden", IntVal(1))];
    assert Classify(row, [honeypot, stealth], vendors, None) == Some(Join(tags, " | "));
  }

  /** `analyze_threat_tags`: the rules are tried in declaration order and the
      label of each one that fires is collected. */
  method AnalyzeThreatTags(row: Row, rules: seq<Rule>, vendors: map<string, string>, defaultLabel: Option<string>)
    returns (r: Option<string>)
    ensures r == Classify(row, rules, vendors, defaultLabel)
  {
    if !("ssid" in row) || !("mac" in row) || !row["mac"].TextVal? {
      return None;
    }
    var ssid := Lower(PyStr(row["ssid"]));
    var vendorName := Lower(GetVendor(vendors, row["mac"].s));
    var tags: seq<string> := [];
    for i := 0 to |rules|
      invariant tags == Tags(rules[..i], ssid, vendorName, row)
    {
      assert rules[..i + 1][..i] == rules[..i];
      if Matches(rules[i], ssid, vendorName, row) {
        tags := tags + [rules[i].tag];
      }
    }
    assert rules[..|rules|] == rules;
    if tags != [] {
      r := Some(Join(tags, " | "));
    } else {
      r := Some(defaultLabel.GetOr("Stationary AP"));
    }
  }
}
