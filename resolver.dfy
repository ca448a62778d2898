/** The category resolver of the navigation links: the link's trimmed text is
    tested against an ordered list of case-insensitive patterns, the first
    pattern that occurs decides the category key, and `Innovations` is the
    key when none does. */
module Resolver {
  import opened Text
  import opened Facts

  /** One branch of the if/else-if chain: a pattern and the key it selects. */
  datatype Rule = Rule(pattern: string, key: string)

  /** The chain of the link click handler, in the order it tests. */
  const Rules: seq<Rule> := [
    Rule("Religion", "Religion"),
    Rule("Cosmos", "Cosmos"),
    Rule("Animal", "Animal"),
    Rule("Love", "Love"),
    Rule("Cars", "Cars"),
    Rule("Phones", "Phones"),
    Rule("Innovation", "Innovations")
  ]

  /** The key `let key` starts with, kept when no pattern occurs. */
  const DefaultKey: string := "Innovations"

  /** `/pattern/i.test(text)`. */
  predicate Fires(rule: Rule, text: string) {
    ContainsIC(text, rule.pattern)
  }

  /** Rule `k` fires on the text and no rule before it does. */
  predicate FirstFiring(rules: seq<Rule>, text: string, k: int) {
    0 <= k < |rules| && Fires(rules[k], text) &&
    forall j :: 0 <= j < k ==> !Fires(rules[j], text)
  }

  /** Walks the rules in order and takes the key of the first that fires. */
  function FirstMatch(rules: seq<Rule>, fallback: string, text: string): (key: string)
    ensures (exists k :: FirstFiring(rules, text, k) && key == rules[k].key) ||
            ((forall k :: 0 <= k < |rules| ==> !Fires(rules[k], text)) && key == fallback)
  {
    if rules == [] then fallback
    else if Fires(rules[0], text) then
      assert FirstFiring(rules, text, 0);
      rules[0].key
    else
      var key := FirstMatch(rules[1..], fallback, text);
      assert (exists k :: FirstFiring(rules, text, k) && key == rules[k].key) ||
             (forall k :: 0 <= k < |rules| ==> !Fires(rules[k], text)) by {
        if exists k :: FirstFiring(rules[1..], text, k) && key == rules[1..][k].key {
          var k :| FirstFiring(rules[1..], text, k) && key == rules[1..][k].key;
          FirstFiringShift(rules, text, k);
        } else {
          assert forall k :: 1 <= k < |rules| ==> rules[k] == rules[1..][k - 1];
        }
      }
      key
  }

  /** Skipping a first rule that does not fire shifts the first firing rule by one. */
  lemma FirstFiringShift(rules: seq<Rule>, text: string, k: nat)
    requires |rules| > 0 && !Fires(rules[0], text)
    ensures FirstFiring(rules[1..], text, k) <==> FirstFiring(rules, text, k + 1)
  {
    assert forall j :: 0 <= j < |rules| - 1 ==> rules[1..][j] == rules[j + 1];
  }

  /** Every key of the chain, and the starting key, names a category of the store. */
  lemma RuleKeysAreCategories()
    ensures DefaultKey in FactsByCategory
    ensures forall k :: 0 <= k < |Rules| ==> Rules[k].key in FactsByCategory
  {
  }

  /** The key the click handler computes for a link's text content. */
  function ResolveLabel(linkText: string): string {
    FirstMatch(Rules, DefaultKey, Trim(linkText))
  }

  /** The resolved key is always a key of the fact store. */
  lemma ResolvedKeyIsCategory(linkText: string)
    ensures ResolveLabel(linkText) in FactsByCategory
  {
    RuleKeysAreCategories();
  }

  /** When rule `k` is the first to fire, the resolver answers its key. */
  lemma {:induction false} FirstMatchAt(rules: seq<Rule>, fallback: string, text: string, k: nat)
    requires FirstFiring(rules, text, k)
    ensures FirstMatch(rules, fallback, text) == rules[k].key
  {
    if k > 0 {
      FirstFiringShift(rules, text, k - 1);
      FirstMatchAt(rules[1..], fallback, text, k - 1);
    }
  }

  /** Earliest rule wins: if rule `k` occurs in the trimmed link text and no rule
      before it does, the link resolves to rule `k`'s key. */
  lemma ResolveEarliestWins(linkText: string, k: nat)
    requires FirstFiring(Rules, Trim(linkText), k)
    ensures ResolveLabel(linkText) == Rules[k].key
  {
    FirstMatchAt(Rules, DefaultKey, Trim(linkText), k);
  }

  /** An earlier rule that fires beats a later one: the result is the key of
      a rule no later than any rule that fires. */
  lemma ResolveNoLaterThan(linkText: string, j: nat)
    requires j < |Rules| && Fires(Rules[j], Trim(linkText))
    ensures exists k :: 0 <= k <= j && FirstFiring(Rules, Trim(linkText), k) && ResolveLabel(linkText) == Rules[k].key
  {
    var text := Trim(linkText);
    var key := FirstMatch(Rules, DefaultKey, text);
    var k :| FirstFiring(Rules, text, k) && key == Rules[k].key;
    assert k <= j;
  }

  /** No pattern occurs in the trimmed link text: the key is `Innovations`. */
  lemma ResolveDefault(linkText: string)
    requires forall k :: 0 <= k < |Rules| ==> !Fires(Rules[k], Trim(linkText))
    ensures ResolveLabel(linkText) == "Innovations"
  {
    var text := Trim(linkText);
    assert !exists k :: FirstFiring(Rules, text, k);
  }

  /** Conversely, a key other than `Innovations` comes from a rule that fired:
      the resolver never invents a category. */
  lemma ResolvedFromRule(linkText: string)
    ensures ResolveLabel(linkText) == "Innovations" ||
            exists k :: FirstFiring(Rules, Trim(linkText), k) && ResolveLabel(linkText) == Rules[k].key
  {
  }

  /** Every key the resolver can produce has at least one fact, so the
      "No facts found" branch cannot be reached from a link. */
  lemma ResolvedPoolNonEmpty(linkText: string, r: real)
    requires 0.0 <= r < 1.0
    ensures |Pool(ResolveLabel(linkText))| > 0
    ensures CategoryText(Pool(ResolveLabel(linkText)), ResolveLabel(linkText), r) != NoFactsMessage
  {
    var key := ResolveLabel(linkText);
    ResolvedKeyIsCategory(linkText);
    EveryCategoryHasFacts();
    var pool := Pool(key);
    var i :| 0 <= i < |pool| && CategoryText(pool, key, r) == Labelled(key, pool[i]);
    LabelledIsNotFallback(key, pool[i]);
  }

  /** Every pattern is non-empty and made of ASCII letters only. */
  lemma PatternsAreLetters()
    ensures forall k :: 0 <= k < |Rules| ==> |Rules[k].pattern| > 0 && AsciiLetters(Rules[k].pattern)
  {
    forall k | 0 <= k < |Rules| ensures |Rules[k].pattern| > 0 && AsciiLetters(Rules[k].pattern) {
      PatternIsLetters(k);
    }
  }

  lemma PatternIsLetters(k: nat)
    requires k < |Rules|
    ensures |Rules[k].pattern| > 0 && AsciiLetters(Rules[k].pattern)
  {
    if k == 0 { assert AsciiLetters("Religion"); }
    else if k == 1 { assert AsciiLetters("Cosmos"); }
    else if k == 2 { assert AsciiLetters("Animal"); }
    else if k == 3 { assert AsciiLetters("Love"); }
    else if k == 4 { assert AsciiLetters("Cars"); }
    else if k == 5 { assert AsciiLetters("Phones"); }
    else { assert AsciiLetters("Innovation"); }
  }

  /** Every pattern is non-empty and free of white space. */
  lemma PatternsHaveNoSpace()
    ensures forall k :: 0 <= k < |Rules| ==> |Rules[k].pattern| > 0 && NoSpace(Rules[k].pattern)
  {
    PatternsAreLetters();
    forall k | 0 <= k < |Rules| ensures NoSpace(Rules[k].pattern) {
      LettersHaveNoSpace(Rules[k].pattern);
    }
  }

  /** Trimming is invisible to the resolver: white space around the link text
      never changes its category. */
  lemma ResolveIgnoresSurroundingSpace(linkText: string)
    ensures FirstMatch(Rules, DefaultKey, linkText) == ResolveLabel(linkText)
  {
    PatternsHaveNoSpace();
    forall k | 0 <= k < |Rules| ensures Fires(Rules[k], Trim(linkText)) == Fires(Rules[k], linkText) {
      ContainsIgnoresTrim(linkText, Rules[k].pattern);
    }
    FirstMatchRespectsFiring(Rules, DefaultKey, linkText, Trim(linkText));
  }

  /** Two texts on which the same rules fire resolve alike. */
  lemma {:induction false} FirstMatchRespectsFiring(rules: seq<Rule>, fallback: string, s: string, t: string)
    requires forall k :: 0 <= k < |rules| ==> Fires(rules[k], s) == Fires(rules[k], t)
    ensures FirstMatch(rules, fallback, s) == FirstMatch(rules, fallback, t)
  {
    if rules != [] && !Fires(rules[0], s) {
      forall k | 0 <= k < |rules[1..]| ensures Fires(rules[1..][k], s) == Fires(rules[1..][k], t) {
        assert rules[1..][k] == rules[k + 1];
      }
      FirstMatchRespectsFiring(rules[1..], fallback, s, t);
    }
  }

  /** A label in which "love" occurs never resolves to `Cars`, `Phones` or
      `Innovations`, whatever else it contains: only the three rules tested
      before `Love` can take precedence over it. */
  lemma LoveBeatsLaterRules(linkText: string)
    requires ContainsIC(Trim(linkText), "Love")
    ensures ResolveLabel(linkText) in {"Religion", "Cosmos", "Animal", "Love"}
  {
    assert Rules[3] == Rule("Love", "Love");
    ResolveNoLaterThan(linkText, 3);
    var k :| 0 <= k <= 3 && FirstFiring(Rules, Trim(linkText), k) && ResolveLabel(linkText) == Rules[k].key;
    assert Rules[..4] == [Rule("Religion", "Religion"), Rule("Cosmos", "Cosmos"),
                          Rule("Animal", "Animal"), Rule("Love", "Love")];
    assert Rules[k] == Rules[..4][k];
  }

  lemma CosmosRule(linkText: string)
    requires ContainsIC(Trim(linkText), "Cosmos") && !ContainsIC(Trim(linkText), "Religion")
    ensures ResolveLabel(linkText) == "Cosmos"
  {
    assert Rules[0] == Rule("Religion", "Religion");
    assert Rules[1] == Rule("Cosmos", "Cosmos");
    assert FirstFiring(Rules, Trim(linkText), 1);
    ResolveEarliestWins(linkText, 1);
  }

  /** A click on the link "Cosmos Facts" resolves to `Cosmos`. */
  lemma CosmosFactsLink()
    ensures ResolveLabel("Cosmos Facts") == "Cosmos"
  {
    TrimUnchanged("Cosmos Facts");
    CosmosFactsMatches();
    CosmosRule("Cosmos Facts");
  }

  lemma CosmosFactsMatches()
    ensures ContainsIC("Cosmos Facts", "Cosmos") && !ContainsIC("Cosmos Facts", "Religion")
  {
    assert StartsWithIC("Cosmos Facts", "Cosmos");
    CosmosFactsLacksReligion();
  }

  lemma CosmosFactsLacksReligion()
    ensures !ContainsIC("Cosmos Facts", "Religion")
  {
    var text := "Cosmos Facts";
    forall i | 0 <= i < |text| ensures !SameLetter(text[i], 'R') {
    }
    AbsentFirstLetter(text, "Religion");
  }

  /** ... and the widget then reads "(Cosmos) " followed by a Cosmos fact. */
  lemma CosmosFactsText(r: real)
    requires 0.0 <= r < 1.0
    ensures var t := CategoryText(Pool(ResolveLabel("Cosmos Facts")), ResolveLabel("Cosmos Facts"), r);
      |t| >= 9 && t[..9] == "(Cosmos) "
  {
    CosmosFactsLink();
    CosmosPoolPrefix(r);
  }

  lemma CosmosPoolPrefix(r: real)
    requires 0.0 <= r < 1.0
    ensures var t := CategoryText(Pool("Cosmos"), "Cosmos", r);
      |t| >= 9 && t[..9] == "(Cosmos) "
  {
    EveryCategoryHasFacts();
    assert "Cosmos" in FactsByCategory;
    assert "(" + "Cosmos" + ") " == "(Cosmos) ";
  }
}
