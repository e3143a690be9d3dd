/** The correction-rule table and the loops that apply it to a text.

    A table is a Python dict from error text to correction text; iteration
    follows insertion order, so it is modelled as a sequence of pairs with
    distinct, non-empty keys. Every copy of the application loop in the
    editor is one of three folds over that sequence:
    - `ReplaceAll`: replace every rule unconditionally (utils/text_utils.py);
    - `ApplyTestingRunning`: replace a rule only when its error occurs in the
      text corrected so far (correction_handler.correct_text and the newer
      CorrectionService.correct_text);
    - `ApplyTestingOriginal`: replace a rule only when its error occurs in the
      input text (every `check_text_for_correction`). */
module RuleEngine {
  import opened Wrappers
  import opened Strings

  type Rule = (string, string)
  type Rules = seq<Rule>

  /** Insertion-ordered dict invariant: keys are distinct; `str.replace`
      needs them non-empty. */
  predicate ValidRules(rules: Rules) {
    (forall i :: 0 <= i < |rules| ==> |rules[i].0| > 0) &&
    (forall i, j :: 0 <= i < j < |rules| ==> rules[i].0 != rules[j].0)
  }

  predicate KeysNonEmpty(rules: Rules) {
    forall i :: 0 <= i < |rules| ==> |rules[i].0| > 0
  }

  function Keys(rules: Rules): set<string> {
    set i | 0 <= i < |rules| :: rules[i].0
  }

  lemma KeysCons(rules: Rules)
    requires |rules| > 0
    ensures Keys(rules) == {rules[0].0} + Keys(rules[1..])
  {
    forall k | k in Keys(rules) ensures k in {rules[0].0} + Keys(rules[1..]) {
      var i :| 0 <= i < |rules| && rules[i].0 == k;
      if i > 0 { assert rules[1..][i - 1].0 == k; }
    }
    forall k | k in Keys(rules[1..]) ensures k in Keys(rules) {
      var i :| 0 <= i < |rules[1..]| && rules[1..][i].0 == k;
      assert rules[i + 1].0 == k;
    }
  }

  /** In a well-formed table the first key does not recur. */
  lemma HeadKeyUnique(rules: Rules)
    requires |rules| > 0 && ValidRules(rules)
    ensures rules[0].0 !in Keys(rules[1..])
  {
    forall k | k in Keys(rules[1..]) ensures k != rules[0].0 {
      var i :| 0 <= i < |rules[1..]| && rules[1..][i].0 == k;
      assert rules[i + 1].0 == k;
    }
  }

  /** `rules.get(error)`. */
  function Lookup(rules: Rules, error: string): Option<string>
    decreases |rules|
  {
    if |rules| == 0 then None
    else if rules[0].0 == error then Some(rules[0].1)
    else Lookup(rules[1..], error)
  }

  lemma {:induction false} LookupIffKey(rules: Rules, error: string)
    ensures Lookup(rules, error).Some? <==> error in Keys(rules)
    decreases |rules|
  {
    if |rules| > 0 {
      LookupIffKey(rules[1..], error);
      KeysCons(rules);
    }
  }

  /** `rules[error] = correction`: an existing key keeps its position and gets
      the new value, a new key goes to the end. */
  function SetRule(rules: Rules, error: string, correction: string): (r: Rules)
    ensures |r| == |rules| || r == rules + [(error, correction)]
    ensures forall i :: 0 <= i < |rules| ==> r[i].0 == rules[i].0
    ensures forall i :: 0 <= i < |rules| ==>
      r[i].1 == (if rules[i].0 == error then correction else rules[i].1)
    ensures error !in Keys(rules) ==> r == rules + [(error, correction)]
    ensures error in Keys(rules) ==> |r| == |rules|
  {
    if error in Keys(rules) then
      seq(|rules|, i requires 0 <= i < |rules| =>
        if rules[i].0 == error then (error, correction) else rules[i])
    else rules + [(error, correction)]
  }

  /** Setting a rule keeps the table well formed and makes the error map to the
      correction while every other key keeps its value. */
  lemma SetRuleSpec(rules: Rules, error: string, correction: string, other: string)
    requires ValidRules(rules) && |error| > 0
    ensures ValidRules(SetRule(rules, error, correction))
    ensures Keys(SetRule(rules, error, correction)) == Keys(rules) + {error}
    ensures Lookup(SetRule(rules, error, correction), error) == Some(correction)
    ensures other != error ==>
      Lookup(SetRule(rules, error, correction), other) == Lookup(rules, other)
  {
    var r := SetRule(rules, error, correction);
    if error in Keys(rules) {
      assert Keys(r) == Keys(rules) by {
        assert forall i :: 0 <= i < |r| ==> r[i].0 == rules[i].0;
      }
      SetRuleLookup(rules, error, correction, error);
      SetRuleLookup(rules, error, correction, other);
    } else {
      assert Keys(r) == Keys(rules) + {error} by {
        assert r[|rules|].0 == error;
        assert forall i :: 0 <= i < |rules| ==> r[i] == rules[i];
      }
      LookupAppend(rules, (error, correction), error);
      LookupAppend(rules, (error, correction), other);
      LookupIffKey(rules, error);
    }
  }

  lemma {:induction false} SetRuleLookup(rules: Rules, error: string, correction: string, key: string)
    requires error in Keys(rules)
    ensures Lookup(SetRule(rules, error, correction), key) ==
      (if key == error then Some(correction) else Lookup(rules, key))
    decreases |rules|
  {
    var r := SetRule(rules, error, correction);
    if rules[0].0 == error {
      assert r[0] == (error, correction);
      if key != error && error in Keys(rules[1..]) {
        SetRuleLookup(rules[1..], error, correction, key);
        assert r[1..] == SetRule(rules[1..], error, correction);
      } else if key != error {
        assert r[1..] == rules[1..];
      }
    } else {
      assert error in Keys(rules[1..]) by {
        var i :| 0 <= i < |rules| && rules[i].0 == error;
        assert rules[1..][i - 1].0 == error;
      }
      assert r[0] == rules[0];
      assert r[1..] == SetRule(rules[1..], error, correction);
      SetRuleLookup(rules[1..], error, correction, key);
    }
  }

  lemma {:induction false} LookupAppend(rules: Rules, rule: Rule, key: string)
    requires rule.0 !in Keys(rules)
    ensures Lookup(rules + [rule], key) ==
      (if key == rule.0 then Some(rule.1) else Lookup(rules, key))
    decreases |rules|
  {
    if |rules| == 0 {
    } else {
      assert (rules + [rule])[1..] == rules[1..] + [rule];
      KeysCons(rules);
      LookupAppend(rules[1..], rule, key);
    }
  }

  /** `rules.pop(error)`: the table without that key, order otherwise kept. */
  function RemoveRule(rules: Rules, error: string): (r: Rules)
    ensures Keys(r) == Keys(rules) - {error}
    ensures ValidRules(rules) ==> ValidRules(r)
    ensures forall k :: k != error ==> Lookup(r, k) == Lookup(rules, k)
    ensures Lookup(r, error) == None
    decreases |rules|
  {
    if |rules| == 0 then []
    else
      var tail := RemoveRule(rules[1..], error);
      KeysCons(rules);
      if rules[0].0 == error then tail
      else
        var r := [rules[0]] + tail;
        assert r[0] == rules[0] && r[1..] == tail;
        KeysCons(r);
        assert ValidRules(rules) ==> ValidRules(r) by {
          if ValidRules(rules) {
            assert ValidRules(rules[1..]);
            HeadKeyUnique(rules);
            forall i, j | 0 <= i < j < |r| ensures r[i].0 != r[j].0 {
              if i == 0 { assert r[j].0 in Keys(tail); }
            }
          }
        }
        r
  }

  /** utils/text_utils.correct_text: every rule's `replace`, in table order,
      on the running text. */
  function ReplaceAll(text: string, rules: Rules): (r: string)
    requires KeysNonEmpty(rules)
    ensures (forall k :: 0 <= k < |rules| ==> |rules[k].1| == |rules[k].0|) ==> |r| == |text|
    decreases |rules|
  {
    if |rules| == 0 then text
    else
      assert forall k :: 0 <= k < |rules[1..]| ==> rules[1..][k] == rules[k + 1];
      ReplaceAll(Replace(text, rules[0].0, rules[0].1), rules[1..])
  }

  /** An empty table leaves the text as it is. */
  lemma ReplaceAllEmpty(text: string)
    ensures ReplaceAll(text, []) == text
  {
  }

  /** Applying `r1 ++ r2` is applying `r1` and then `r2`. */
  lemma {:induction false} ReplaceAllConcat(text: string, r1: Rules, r2: Rules)
    requires KeysNonEmpty(r1) && KeysNonEmpty(r2)
    ensures KeysNonEmpty(r1 + r2)
    ensures ReplaceAll(text, r1 + r2) == ReplaceAll(ReplaceAll(text, r1), r2)
    decreases |r1|
  {
    if |r1| == 0 {
      assert r1 + r2 == r2;
    } else {
      assert (r1 + r2)[0] == r1[0];
      assert (r1 + r2)[1..] == r1[1..] + r2;
      ReplaceAllConcat(Replace(text, r1[0].0, r1[0].1), r1[1..], r2);
    }
  }

  /** A text that contains no error of the table is left unchanged, whichever
      the corrections are. */
  lemma {:induction false} ReplaceAllNoOccurrence(text: string, rules: Rules)
    requires KeysNonEmpty(rules)
    requires forall i :: 0 <= i < |rules| ==> !Contains(text, rules[i].0)
    ensures ReplaceAll(text, rules) == text
  {
    if |rules| > 0 {
      ReplaceAbsent(text, rules[0].0, rules[0].1);
      ReplaceAllNoOccurrence(text, rules[1..]);
    }
  }

  /** The result of one application loop: the corrected text and the rules
      that were applied (Python's `actual_corrections` list). */
  datatype Applied = Applied(text: string, applied: Rules)

  /** The loop that replaces a rule only when its error occurs in the text
      corrected so far. */
  function ApplyTestingRunning(text: string, rules: Rules): Applied
    requires KeysNonEmpty(rules)
    decreases |rules|
  {
    if |rules| == 0 then Applied(text, [])
    else if Contains(text, rules[0].0) then
      var rest := ApplyTestingRunning(Replace(text, rules[0].0, rules[0].1), rules[1..]);
      Applied(rest.text, [rules[0]] + rest.applied)
    else ApplyTestingRunning(text, rules[1..])
  }

  /** The loop that replaces a rule only when its error occurs in the
      `original` input, while the replacement acts on `current`. */
  function ApplyTestingOriginal(original: string, current: string, rules: Rules): Applied
    requires KeysNonEmpty(rules)
    decreases |rules|
  {
    if |rules| == 0 then Applied(current, [])
    else if Contains(original, rules[0].0) then
      var rest := ApplyTestingOriginal(original, Replace(current, rules[0].0, rules[0].1), rules[1..]);
      Applied(rest.text, [rules[0]] + rest.applied)
    else ApplyTestingOriginal(original, current, rules[1..])
  }

  /** The rules whose error occurs in `text`, in table order. */
  function Occurring(rules: Rules, text: string): (r: Rules)
    ensures |r| <= |rules|
    ensures forall i :: 0 <= i < |r| ==> r[i] in rules && Contains(text, r[i].0)
    ensures forall i :: 0 <= i < |rules| && Contains(text, rules[i].0) ==> rules[i] in r
    ensures KeysNonEmpty(rules) ==> KeysNonEmpty(r)
    decreases |rules|
  {
    if |rules| == 0 then []
    else if Contains(text, rules[0].0) then [rules[0]] + Occurring(rules[1..], text)
    else Occurring(rules[1..], text)
  }

  /** Testing against the running text changes nothing about the result:
      a rule whose error is absent would replace nothing. So the
      alignment handler's `correct_text` equals text_utils' `correct_text`. */
  lemma {:induction false} RunningIsReplaceAll(text: string, rules: Rules)
    requires KeysNonEmpty(rules)
    ensures ApplyTestingRunning(text, rules).text == ReplaceAll(text, rules)
    decreases |rules|
  {
    if |rules| > 0 {
      if Contains(text, rules[0].0) {
        RunningIsReplaceAll(Replace(text, rules[0].0, rules[0].1), rules[1..]);
      } else {
        ReplaceAbsent(text, rules[0].0, rules[0].1);
        RunningIsReplaceAll(text, rules[1..]);
      }
    }
  }

  /** The running-text loop applied some rule exactly when some rule's error
      occurred in the text as corrected by the rules before it. */
  lemma {:induction false} RunningAppliedIff(text: string, rules: Rules)
    requires KeysNonEmpty(rules)
    ensures |ApplyTestingRunning(text, rules).applied| > 0 <==>
      exists i :: 0 <= i < |rules| && Contains(ReplaceAll(text, rules[..i]), rules[i].0)
    decreases |rules|
  {
    if |rules| > 0 {
      assert rules[..0] == [];
      if Contains(text, rules[0].0) {
        assert Contains(ReplaceAll(text, rules[..0]), rules[0].0);
      } else {
        ReplaceAbsent(text, rules[0].0, rules[0].1);
        RunningAppliedIff(text, rules[1..]);
        var t := Replace(text, rules[0].0, rules[0].1);
        assert t == text;
        forall i | 1 <= i < |rules|
          ensures ReplaceAll(text, rules[..i]) == ReplaceAll(text, rules[1..][..i - 1])
        {
          assert rules[..i] == [rules[0]] + rules[1..][..i - 1];
          ReplaceAllConcat(text, [rules[0]], rules[1..][..i - 1]);
          assert ReplaceAll(text, [rules[0]]) == ReplaceAll(t, []);
        }
        if |ApplyTestingRunning(text, rules).applied| > 0 {
          var j :| 0 <= j < |rules[1..]| && Contains(ReplaceAll(text, rules[1..][..j]), rules[1..][j].0);
          assert Contains(ReplaceAll(text, rules[..j + 1]), rules[j + 1].0);
        } else {
          forall i | 0 <= i < |rules| ensures !Contains(ReplaceAll(text, rules[..i]), rules[i].0) {
            if i > 0 {
              assert rules[1..][i - 1] == rules[i];
            }
          }
        }
      }
    }
  }

  /** Testing against the input text applies exactly the rules whose error
      occurs in it, in table order, and the result is those rules' `replace`
      chain. */
  lemma {:induction false} OriginalIsOccurring(original: string, current: string, rules: Rules)
    requires KeysNonEmpty(rules)
    ensures ApplyTestingOriginal(original, current, rules) ==
      Applied(ReplaceAll(current, Occurring(rules, original)), Occurring(rules, original))
    decreases |rules|
  {
    if |rules| > 0 {
      if Contains(original, rules[0].0) {
        OriginalIsOccurring(original, Replace(current, rules[0].0, rules[0].1), rules[1..]);
      } else {
        OriginalIsOccurring(original, current, rules[1..]);
      }
    }
  }

  /** If the corrected text differs from the input, some rule was applied;
      so `len(applied) > 0 and corrected != text` is just `corrected != text`. */
  lemma ChangedImpliesApplied(text: string, rules: Rules)
    requires KeysNonEmpty(rules)
    ensures ApplyTestingOriginal(text, text, rules).text != text ==>
      |ApplyTestingOriginal(text, text, rules).applied| > 0
  {
    OriginalIsOccurring(text, text, rules);
  }

  /** A non-empty error never occurs in the empty text, so every loop leaves
      `""` alone and applies nothing. */
  lemma EmptyTextUntouched(rules: Rules)
    requires KeysNonEmpty(rules)
    ensures ApplyTestingOriginal("", "", rules) == Applied("", [])
  {
    OriginalIsOccurring("", "", rules);
    OccurringNone(rules, "");
  }

  /** No rule occurs, nothing is selected. */
  lemma {:induction false} OccurringNone(rules: Rules, text: string)
    requires forall i :: 0 <= i < |rules| ==> !Contains(text, rules[i].0)
    ensures Occurring(rules, text) == []
    decreases |rules|
  {
    if |rules| > 0 {
      OccurringNone(rules[1..], text);
    }
  }

  /** `check_text_for_correction`'s verdict: some rule of the table occurs in
      the input and the corrected text differs from it. */
  datatype Check = Check(needsCorrection: bool, corrected: string, original: string, applied: Rules)

  /** The body shared by every `check_text_for_correction` copy that tests
      errors against the input text. */
  function CheckText(text: string, rules: Rules): (c: Check)
    requires KeysNonEmpty(rules)
    ensures c.original == text
    ensures c.needsCorrection <==> c.corrected != text
  {
    var a := ApplyTestingOriginal(text, text, rules);
    OriginalIsOccurring(text, text, rules);
    Check(|a.applied| > 0 && a.text != text, a.text, text, a.applied)
  }

  /** The check reports exactly the errors occurring in the text, and its
      corrected text is every one of them replaced in rule order. */
  lemma CheckTextSpec(text: string, rules: Rules)
    requires KeysNonEmpty(rules)
    ensures CheckText(text, rules).applied == Occurring(rules, text)
    ensures CheckText(text, rules).corrected == ReplaceAll(text, Occurring(rules, text))
  {
    OriginalIsOccurring(text, text, rules);
  }
}
