/**
  The resource links of main.py: `detect_resources` scans a consultation reply for mentions of
  seven assessment tools and frameworks, and the chat loop appends each newly mentioned one,
  once, to the session's running list, of which the page shows the last six.
 */
module Resources {
  import opened Text
  import opened PyDict

  /** One detection rule: if any keyword occurs in the lower-cased text, `name` maps to `link`. */
  datatype Rule = Rule(keywords: seq<string>, name: string, link: string)

  const SensoryProfileLink := "https://www.pearsonassessments.com/store/usassessments/en/Store/Professional-Assessments/Behavior/Sensory-Profile-2/p/100000822.html"
  const AdosLink := "https://www.ados-2.com/"
  const WiscLink := "https://www.pearsonassessments.com/store/usassessments/en/Store/Professional-Assessments/Cognition-%26-Neuro/Wechsler-Intelligence-Scale-for-Children-%7C-Fifth-Edition/p/100000771.html"
  const FbaLink := "https://www.pbis.org/topics/functional-behavioral-assessment"
  const CbtLink := "https://www.babcp.com/"
  const AttachmentLink := "https://www.attachmentparenting.org/"
  const PicaLink := "https://www.nationaleatingdisorders.org/pica"

  /** The seven checks of detect_resources, in the order the function makes them. */
  const Rules: seq<Rule> := [
    Rule(["sensory profile", "sensory profile-2"], "Sensory Profile-2", SensoryProfileLink),
    Rule(["ados", "ados-2"], "ADOS-2", AdosLink),
    Rule(["wisc"], "WISC-V", WiscLink),
    Rule(["functional behavioral assessment", "fba"], "Functional Behavioral Assessment", FbaLink),
    Rule(["cbt", "cognitive behavioral"], "CBT Resources", CbtLink),
    Rule(["attachment"], "Attachment Theory", AttachmentLink),
    Rule(["pica"], "PICA Information", PicaLink)
  ]

  /** Some keyword of the rule occurs in the text. */
  predicate Fires(r: Rule, text: string) {
    exists k :: 0 <= k < |r.keywords| && Contains(text, r.keywords[k])
  }

  /** The entries of the rules that fire, in rule order. */
  function Detect(rules: seq<Rule>, text: string): (d: Dict)
    ensures |d| <= |rules|
    ensures forall e :: e in d ==> exists i :: 0 <= i < |rules| && e == Entry(rules[i].name, rules[i].link) && Fires(rules[i], text)
  {
    if |rules| == 0 then []
    else
      var rest := Detect(rules[1..], text);
      (if Fires(rules[0], text) then [Entry(rules[0].name, rules[0].link)] else []) + rest
  }

  /** How many of the rules fire on the text. */
  function FiredCount(rules: seq<Rule>, text: string): (n: nat)
    ensures n <= |rules|
  {
    if |rules| == 0 then 0 else (if Fires(rules[0], text) then 1 else 0) + FiredCount(rules[1..], text)
  }

  /** The detection has one entry per firing rule, and the entry of a firing rule sits after
      those of the firing rules before it: the entries come in rule order. */
  lemma {:induction false} DetectInRuleOrder(rules: seq<Rule>, text: string, i: int)
    requires 0 <= i < |rules| && Fires(rules[i], text)
    ensures |Detect(rules, text)| == FiredCount(rules, text)
    ensures FiredCount(rules[..i], text) < |Detect(rules, text)|
    ensures Detect(rules, text)[FiredCount(rules[..i], text)] == Entry(rules[i].name, rules[i].link)
    decreases |rules|
  {
    var head: Dict := if Fires(rules[0], text) then [Entry(rules[0].name, rules[0].link)] else [];
    var rest := Detect(rules[1..], text);
    assert Detect(rules, text) == head + rest;
    if i == 0 {
      assert rules[..0] == [];
      DetectLength(rules[1..], text);
    } else {
      DetectInRuleOrder(rules[1..], text, i - 1);
      assert rules[..i][0] == rules[0] && rules[..i][1..] == rules[1..][..i - 1];
      assert FiredCount(rules[..i], text) == |head| + FiredCount(rules[1..][..i - 1], text);
    }
  }

  /** The detection has one entry per firing rule. */
  lemma {:induction false} DetectLength(rules: seq<Rule>, text: string)
    ensures |Detect(rules, text)| == FiredCount(rules, text)
    decreases |rules|
  {
    if |rules| > 0 {
      DetectLength(rules[1..], text);
    }
  }

  /** Of two firing rules, the earlier one's entry comes first. */
  lemma FiredEarlierListedEarlier(rules: seq<Rule>, text: string, i: int, j: int)
    requires 0 <= i < j < |rules| && Fires(rules[i], text) && Fires(rules[j], text)
    ensures exists p, q ::
              0 <= p < q < |Detect(rules, text)|
              && Detect(rules, text)[p] == Entry(rules[i].name, rules[i].link)
              && Detect(rules, text)[q] == Entry(rules[j].name, rules[j].link)
  {
    DetectInRuleOrder(rules, text, i);
    DetectInRuleOrder(rules, text, j);
    FiredCountGrows(rules[..j], text, i);
    assert rules[..j][..i] == rules[..i];
  }

  /** A firing rule counts: more rules fire in the whole list than before it. */
  lemma {:induction false} FiredCountGrows(rules: seq<Rule>, text: string, i: int)
    requires 0 <= i < |rules| && Fires(rules[i], text)
    ensures FiredCount(rules[..i], text) < FiredCount(rules, text)
    decreases |rules|
  {
    if i > 0 {
      FiredCountGrows(rules[1..], text, i - 1);
      assert rules[..i][0] == rules[0] && rules[..i][1..] == rules[1..][..i - 1];
    } else {
      assert rules[..0] == [];
    }
  }

  predicate DistinctNames(rules: seq<Rule>) {
    forall i, j :: 0 <= i < j < |rules| ==> rules[i].name != rules[j].name
  }

  lemma RuleNamesDistinct()
    ensures DistinctNames(Rules)
  {
  }

  /** A rule's name is detected exactly when the rule fires. */
  lemma {:induction false} DetectMember(rules: seq<Rule>, text: string, i: int)
    requires DistinctNames(rules) && 0 <= i < |rules|
    ensures rules[i].name in Keys(Detect(rules, text)) <==> Fires(rules[i], text)
  {
    var d := Detect(rules, text);
    var rest := Detect(rules[1..], text);
    if i == 0 {
      if Fires(rules[0], text) {
        assert Keys(d)[0] == rules[0].name;
      }
      if rules[0].name in Keys(d) {
        var m :| 0 <= m < |d| && Keys(d)[m] == rules[0].name;
        assert d[m] in d;
        var k :| 0 <= k < |rules| && d[m] == Entry(rules[k].name, rules[k].link) && Fires(rules[k], text);
        assert k == 0;
      }
    } else {
      DetectMember(rules[1..], text, i - 1);
      KeysConcat((if Fires(rules[0], text) then [Entry(rules[0].name, rules[0].link)] else []), rest, rules[i].name);
    }
  }

  lemma KeysConcat(a: Dict, b: Dict, k: string)
    ensures k in Keys(a + b) <==> k in Keys(a) || k in Keys(b)
  {
    if k in Keys(a + b) {
      var m :| 0 <= m < |a + b| && Keys(a + b)[m] == k;
      if m >= |a| {
        assert Keys(b)[m - |a|] == k;
      } else {
        assert Keys(a)[m] == k;
      }
    }
    if k in Keys(a) {
      var m :| 0 <= m < |a| && Keys(a)[m] == k;
      assert Keys(a + b)[m] == k;
    }
    if k in Keys(b) {
      var m :| 0 <= m < |b| && Keys(b)[m] == k;
      assert Keys(a + b)[|a| + m] == k;
    }
  }

  /** Detected names are pairwise distinct, since the rules' names are. */
  lemma {:induction false} DetectUnique(rules: seq<Rule>, text: string)
    requires DistinctNames(rules)
    ensures UniqueKeys(Detect(rules, text))
  {
    if |rules| > 0 {
      DetectUnique(rules[1..], text);
      var rest := Detect(rules[1..], text);
      if Fires(rules[0], text) {
        forall m | 0 <= m < |rest|
          ensures rest[m].key != rules[0].name
        {
          assert rest[m] in rest;
          var k :| 0 <= k < |rules| - 1 && rest[m] == Entry(rules[1..][k].name, rules[1..][k].link) && Fires(rules[1..][k], text);
          assert rules[1..][k] == rules[k + 1];
        }
      }
    }
  }

  /** detect_resources: the resources whose keywords occur in the text, matched case-insensitively. */
  function DetectResources(text: string): (d: Dict)
    ensures |d| <= 7
    ensures UniqueKeys(d)
    ensures forall e :: e in d ==> exists i :: 0 <= i < |Rules| && e == Entry(Rules[i].name, Rules[i].link)
  {
    RuleNamesDistinct();
    DetectUnique(Rules, Lower(text));
    Detect(Rules, Lower(text))
  }

  /** Case does not matter: the text and its lower-cased form detect the same resources. */
  lemma DetectIgnoresCase(text: string)
    ensures DetectResources(Lower(text)) == DetectResources(text)
  {
    LowerIdempotent(text);
  }

  /** "WISC-V" is detected exactly when "wisc" occurs in the lower-cased text. */
  lemma WiscDetected(text: string)
    ensures "WISC-V" in Keys(DetectResources(text)) <==> Contains(Lower(text), "wisc")
  {
    RuleNamesDistinct();
    var t := Lower(text);
    DetectMember(Rules, t, 2);
    assert Rules[2].keywords == ["wisc"];
    if Contains(t, "wisc") {
      assert Contains(t, Rules[2].keywords[0]);
    }
  }

  /** "Sensory Profile-2" is detected exactly when "sensory profile" occurs in the lower-cased
      text: the longer keyword "sensory profile-2" can only occur where the shorter one does. */
  lemma SensoryProfileDetected(text: string)
    ensures "Sensory Profile-2" in Keys(DetectResources(text)) <==> Contains(Lower(text), "sensory profile")
  {
    var t := Lower(text);
    RuleNamesDistinct();
    DetectMember(Rules, t, 0);
    var kws := Rules[0].keywords;
    assert kws[1] == kws[0] + "-2";
    if Contains(t, kws[1]) {
      ContainsPrefix(t, kws[0], "-2");
    }
    assert Fires(Rules[0], t) <==> Contains(t, kws[0]);
  }

  // ---------------------------------------------------------------------------
  // The running list of mentioned resources

  /** One `{"name": ..., "link": ...}` item of `mentioned_resources`. */
  datatype Resource = Resource(name: string, link: string)

  function Names(rs: seq<Resource>): (ns: seq<string>)
    ensures |ns| == |rs|
    ensures forall i :: 0 <= i < |rs| ==> ns[i] == rs[i].name
  {
    seq(|rs|, i requires 0 <= i < |rs| => rs[i].name)
  }

  predicate DistinctResourceNames(rs: seq<Resource>) {
    forall i, j :: 0 <= i < j < |rs| ==> rs[i].name != rs[j].name
  }

  /** The list after the chat loop has offered each detected entry in turn, appending those whose
      name is not yet listed. */
  function Merged(mentioned: seq<Resource>, found: Dict): (r: seq<Resource>)
    decreases |found|
  {
    if |found| == 0 then mentioned
    else
      var last := found[|found| - 1];
      var before := Merged(mentioned, found[..|found| - 1]);
      if last.key in Names(before) then before else before + [Resource(last.key, last.value)]
  }

  /** The existing list is kept as it was, at the front. */
  lemma {:induction false} MergedKeepsPrefix(mentioned: seq<Resource>, found: Dict)
    ensures |Merged(mentioned, found)| >= |mentioned|
    ensures Merged(mentioned, found)[..|mentioned|] == mentioned
    decreases |found|
  {
    if |found| > 0 {
      MergedKeepsPrefix(mentioned, found[..|found| - 1]);
    }
  }

  /** No name is listed twice, if none was before. */
  lemma {:induction false} MergedDistinct(mentioned: seq<Resource>, found: Dict)
    requires DistinctResourceNames(mentioned)
    ensures DistinctResourceNames(Merged(mentioned, found))
    decreases |found|
  {
    if |found| > 0 {
      MergedDistinct(mentioned, found[..|found| - 1]);
    }
  }

  /** Every offered name is listed afterwards. */
  lemma {:induction false} MergedListsFound(mentioned: seq<Resource>, found: Dict)
    ensures forall e :: e in found ==> e.key in Names(Merged(mentioned, found))
    decreases |found|
  {
    if |found| > 0 {
      var init := found[..|found| - 1];
      var last := found[|found| - 1];
      MergedListsFound(mentioned, init);
      var before := Merged(mentioned, init);
      var after := Merged(mentioned, found);
      assert found == init + [last];
      forall e | e in found
        ensures e.key in Names(after)
      {
        if e in init {
          var m :| 0 <= m < |before| && Names(before)[m] == e.key;
          assert Names(after)[m] == e.key;
        } else if last.key !in Names(before) {
          assert Names(after)[|before|] == e.key;
        }
      }
    }
  }

  /** Every listed item was listed before or offered now. */
  lemma {:induction false} MergedFromFound(mentioned: seq<Resource>, found: Dict)
    ensures forall r :: r in Merged(mentioned, found) ==> r in mentioned || Entry(r.name, r.link) in found
    decreases |found|
  {
    if |found| > 0 {
      var init := found[..|found| - 1];
      MergedFromFound(mentioned, init);
      assert forall e :: e in init ==> e in found;
    }
  }

  /** Offering the same entries a second time changes nothing. */
  lemma MergedIdempotent(mentioned: seq<Resource>, found: Dict)
    ensures Merged(Merged(mentioned, found), found) == Merged(mentioned, found)
  {
    var once := Merged(mentioned, found);
    MergedListsFound(mentioned, found);
    AllListedMergeNothing(once, found);
  }

  lemma {:induction false} AllListedMergeNothing(mentioned: seq<Resource>, found: Dict)
    requires forall e :: e in found ==> e.key in Names(mentioned)
    ensures Merged(mentioned, found) == mentioned
    decreases |found|
  {
    if |found| > 0 {
      var init := found[..|found| - 1];
      assert forall e :: e in init ==> e in found;
      AllListedMergeNothing(mentioned, init);
      assert found[|found| - 1] in found;
    }
  }

  /** The loop of main.py over the detected resources. */
  method MergeResources(mentioned: seq<Resource>, found: Dict) returns (r: seq<Resource>)
    ensures r == Merged(mentioned, found)
    ensures |r| >= |mentioned| && r[..|mentioned|] == mentioned
    ensures DistinctResourceNames(mentioned) ==> DistinctResourceNames(r)
  {
    r := mentioned;
    var i := 0;
    while i < |found|
      invariant 0 <= i <= |found|
      invariant r == Merged(mentioned, found[..i])
    {
      assert found[..i + 1][..i] == found[..i];
      if found[i].key !in Names(r) {
        r := r + [Resource(found[i].key, found[i].value)];
      }
      i := i + 1;
    }
    assert found[..|found|] == found;
    MergedKeepsPrefix(mentioned, found);
    if DistinctResourceNames(mentioned) {
      MergedDistinct(mentioned, found);
    }
  }

  /** `mentioned_resources[-6:]`: the six most recently added, or all when there are fewer. */
  function Shown(mentioned: seq<Resource>): (r: seq<Resource>)
    ensures |r| == if |mentioned| < 6 then |mentioned| else 6
    ensures r == mentioned[|mentioned| - |r|..]
  {
    if |mentioned| <= 6 then mentioned else mentioned[|mentioned| - 6..]
  }

  /** When a reply adds at most six resources, all of them are shown. */
  lemma NewlyAddedAreShown(mentioned: seq<Resource>, found: Dict)
    requires |Merged(mentioned, found)| <= |mentioned| + 6
    ensures forall k :: |mentioned| <= k < |Merged(mentioned, found)| ==>
      Merged(mentioned, found)[k] in Shown(Merged(mentioned, found))
  {
    var m := Merged(mentioned, found);
    var s := Shown(m);
    MergedKeepsPrefix(mentioned, found);
    forall k | |mentioned| <= k < |m|
      ensures m[k] in s
    {
      assert s[k - (|m| - |s|)] == m[k];
    }
  }
}
