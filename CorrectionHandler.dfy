/** The alignment window's correction handler: three checks of a text
    against a rule table, and the conversion of one subtitle into a tree
    row, which records its correction in the window's state manager. */
module CorrectionHandler {
  import opened Wrappers
  import opened Strings
  import opened RuleEngine
  import opened CorrectionEntries
  import opened CorrectionStateManager
  import opened LegacyCorrectionStateManager

  const PlayIcon: string := "▶"

  /** `correct_text(text, corrections)`: a rule is replaced only when its
      error occurs in the running text, which gives exactly the plain
      replacement of every rule in order. */
  function CorrectText(text: string, rules: Rules): (r: string)
    requires KeysNonEmpty(rules)
    ensures r == ReplaceAll(text, rules)
  {
    RunningIsReplaceAll(text, rules);
    ApplyTestingRunning(text, rules).text
  }

  /** `(needs_correction, original, corrected)` of `check_text_correction`. */
  datatype TextCorrection = TextCorrection(needsCorrection: bool, original: string, corrected: string)

  /** `check_text_correction(text, corrections)`: the same replacements as
      the correction check, but the verdict is only whether some error
      occurs in the text, whatever the result. */
  function CheckTextCorrection(text: string, rules: Rules): (c: TextCorrection)
    requires KeysNonEmpty(rules)
    ensures c.original == text
    ensures c.needsCorrection <==> exists i :: 0 <= i < |rules| && Contains(text, rules[i].0)
    ensures c.corrected == CheckText(text, rules).corrected
  {
    var a := ApplyTestingOriginal(text, text, rules);
    IconIffApplied(text, rules);
    TextCorrection(|a.applied| > 0, text, a.text)
  }

  /** A rule that maps an error to itself shows the difference: this check
      asks for a correction that changes nothing, the correction check
      does not. */
  lemma NeedsWithoutChange()
    ensures CheckTextCorrection("a", [("a", "a")]) == TextCorrection(true, "a", "a")
    ensures !CheckText("a", [("a", "a")]).needsCorrection
  {
    assert Contains("a", "a");
    assert Replace("a", "a", "a") == "a" by {
      assert Replace("", "a", "a") == "";
    }
    var c := CheckTextCorrection("a", [("a", "a")]);
    assert c.needsCorrection by {
      assert 0 < |[("a", "a")]| && Contains("a", [("a", "a")][0].0);
    }
  }

  /** The first rule, in table order, whose error occurs in `text`. */
  function FirstMatch(text: string, rules: Rules): (m: Option<nat>)
    ensures m.Some? ==>
      m.value < |rules| && Contains(text, rules[m.value].0) &&
      forall j :: 0 <= j < m.value ==> !Contains(text, rules[j].0)
    ensures m.None? <==> forall j :: 0 <= j < |rules| ==> !Contains(text, rules[j].0)
    decreases |rules|
  {
    if |rules| == 0 then None
    else if Contains(text, rules[0].0) then Some(0)
    else
      var rest := FirstMatch(text, rules[1..]);
      assert forall j :: 1 <= j < |rules| ==> rules[j] == rules[1..][j - 1];
      match rest
      case None => None
      case Some(j) => Some(j + 1)
  }

  /** The text `process_subtitle_item` shows: only the first matching
      rule is replaced. */
  function FirstCorrected(text: string, rules: Rules): string
    requires KeysNonEmpty(rules)
  {
    match FirstMatch(text, rules)
    case None => text
    case Some(i) => Replace(text, rules[i].0, rules[i].1)
  }

  /** The row marks a correction exactly when the icon test would. */
  lemma FirstMatchIffIcon(text: string, rules: Rules)
    ensures FirstMatch(text, rules).Some? <==> ShouldHaveIcon(text, rules)
  {
  }

  /** With two errors in the text only the first is replaced, where the
      correction check replaces both. */
  lemma OnlyFirstRuleApplied()
    ensures FirstCorrected("ab", [("a", "x"), ("b", "y")]) == "xb"
    ensures CheckText("ab", [("a", "x"), ("b", "y")]).corrected == "xy"
  {
    var rules: Rules := [("a", "x"), ("b", "y")];
    assert Contains("ab", "a");
    assert Contains("ab", "b") by { assert "ab"[1..] == "b"; }
    assert FirstMatch("ab", rules) == Some(0);
    assert Replace("b", "a", "x") == "b" by {
      assert "b"[..1] != "a" && "b"[1..] == "";
    }
    assert Replace("ab", "a", "x") == "xb" by {
      assert "ab"[..1] == "a" && "ab"[1..] == "b";
    }
    assert Replace("xb", "b", "y") == "xy" by {
      assert "xb"[..1] != "b" && "xb"[1..] == "b";
      assert Replace("b", "b", "y") == "y" by { assert "b"[1..] == ""; }
    }
    CheckTextSpec("ab", rules);
    assert Occurring(rules, "ab") == rules by {
      assert rules[1..] == [("b", "y")];
      assert rules[1..][1..] == [];
    }
    assert ReplaceAll("xb", [("b", "y")]) == "xy" by {
      assert [("b", "y")][1..] == [];
    }
  }

  /** The values of a subtitle row; `audio_srt` puts the play icon first. */
  function SubtitleRow(index: int, start: string, end: string, text: string, icon: string, displayMode: string)
    : (row: seq<string>)
    ensures |row| == (if displayMode == "audio_srt" then 6 else 5)
    ensures row[|row| - 1] == icon
    ensures (row[0] == PlayIcon && |row| == 6) <==> displayMode == "audio_srt"
  {
    var base := [IntToString(index), start, end, text, icon];
    assert IntToString(index) != PlayIcon by {
      if index < 0 {
        assert IntToString(index)[0] == '-';
      } else {
        assert IsDigit(NatToString(index)[0]);
      }
    }
    if displayMode == "audio_srt" then [PlayIcon] + base else base
  }

  /** `process_subtitle_item(sub, corrections)` for a subtitle with its
      times already rendered and its text already converted to traditional
      characters. A non-integer index gives `None` and changes nothing;
      otherwise the first matching rule is applied, the V/X cell shows it,
      and a correction is recorded under `str(index)`. */
  method ProcessSubtitleItem(index: string, start: string, end: string, traditional: string, rules: Rules,
                             displayMode: string, manager: LegacyCorrectionStateManager)
    returns (row: Option<seq<string>>)
    requires KeysNonEmpty(rules) && manager.Valid()
    modifies manager
    ensures manager.Valid()
    ensures ParseInt(index).Failure? ==> row.None? && manager.Record() == old(manager.Record())
    ensures ParseInt(index).Success? ==>
      var matched := FirstMatch(traditional, rules).Some?;
      var text := FirstCorrected(traditional, rules);
      row == Some(SubtitleRow(ParseInt(index).value, start, end, text, if matched then CorrectIcon else "", displayMode)) &&
      manager.Record() == (if matched then SetEntry(old(manager.Record()), IntToString(ParseInt(index).value),
                                                    traditional, text, "correct")
                           else old(manager.Record()))
  {
    var parsed := ParseInt(index);
    if parsed.Failure? {
      return None;
    }
    var n := parsed.value;
    var corrected := traditional;
    var hasCorrections := false;
    var i := 0;
    while i < |rules|
      invariant 0 <= i <= |rules|
      invariant forall j :: 0 <= j < i ==> !Contains(traditional, rules[j].0)
      invariant !hasCorrections && corrected == traditional
    {
      if Contains(traditional, rules[i].0) {
        corrected := Replace(corrected, rules[i].0, rules[i].1);
        hasCorrections := true;
        break;
      }
      i := i + 1;
    }
    assert hasCorrections <==> FirstMatch(traditional, rules).Some?;
    assert hasCorrections ==> FirstMatch(traditional, rules) == Some(i);
    row := Some(SubtitleRow(n, start, end, corrected, if hasCorrections then CorrectIcon else "", displayMode));
    if hasCorrections {
      manager.AddCorrectionState(IntToString(n), traditional, corrected, "correct");
    }
  }
}
