/** The Word document's paragraphs as the alignment window edits them: two
    parallel lists (the paragraphs and their comparison forms) and the
    edited texts keyed by paragraph position. Reading the document is not
    part of this model; the comparison form and the similarity measure are
    parameters. */
module WordProcessor {
  import opened Wrappers
  import opened Strings

  /** The edited text at `k`, if any. */
  function MarkAt(m: map<int, string>, k: int): Option<string> {
    if k in m then Some(m[k]) else None
  }

  /** Two mark tables that agree at every position are equal. */
  lemma MarksEqual(a: map<int, string>, b: map<int, string>)
    requires forall k :: MarkAt(a, k) == MarkAt(b, k)
    ensures a == b
  {
    assert a.Keys == b.Keys by {
      forall k | k in a.Keys ensures k in b.Keys {
        assert MarkAt(a, k).Some?;
      }
      forall k | k in b.Keys ensures k in a.Keys {
        assert MarkAt(b, k).Some?;
      }
    }
    forall k | k in a.Keys ensures a[k] == b[k] {
      assert MarkAt(a, k) == MarkAt(b, k);
    }
  }

  /** `get_paragraph_text(index)`: the edited text when there is one, else
      the paragraph when the index is in range, else `""`. */
  function ParagraphText(paragraphs: seq<string>, edited: map<int, string>, index: int): (t: string)
    ensures index in edited ==> t == edited[index]
    ensures index !in edited && 0 <= index < |paragraphs| ==> t == paragraphs[index]
    ensures index !in edited && !(0 <= index < |paragraphs|) ==> t == ""
  {
    if index in edited then edited[index]
    else if 0 <= index < |paragraphs| then paragraphs[index]
    else ""
  }

  /** The comparison list holds, at every position, the comparison form of
      the text that position shows. */
  predicate Coherent(paragraphs: seq<string>, processed: seq<string>, edited: map<int, string>,
                     normalize: string -> string) {
    |processed| == |paragraphs| &&
    forall i :: 0 <= i < |paragraphs| ==> processed[i] == normalize(ParagraphText(paragraphs, edited, i))
  }

  /** `f` applied to each element. */
  function MapSeq(f: string -> string, s: seq<string>): (r: seq<string>)
    ensures |r| == |s| && forall i :: 0 <= i < |s| ==> r[i] == f(s[i])
  {
    seq(|s|, i requires 0 <= i < |s| => f(s[i]))
  }

  /** A list with element `index` replaced by `texts`. */
  function Splice(s: seq<string>, index: nat, texts: seq<string>): (r: seq<string>)
    requires index < |s|
    ensures |r| == |s| + |texts| - 1
  {
    s[..index] + texts + s[index + 1..]
  }

  /** The text where the split puts each position: before the split and
      after the new parts as before, shifted by `|texts| - 1`. */
  lemma SpliceAt(s: seq<string>, index: nat, texts: seq<string>, p: nat)
    requires index < |s| && p < |s| + |texts| - 1
    ensures p < index ==> Splice(s, index, texts)[p] == s[p]
    ensures index <= p < index + |texts| ==> Splice(s, index, texts)[p] == texts[p - index]
    ensures p >= index + |texts| ==> Splice(s, index, texts)[p] == s[p - (|texts| - 1)]
  {
  }

  /** Where each edited text belongs after splitting paragraph `index`
      into `texts`: marks before it stay, its own mark goes to the first
      part as that part's text, the other parts are unedited, and marks
      after it move with their paragraphs by `|texts| - 1`. */
  function ShiftedAt(m: map<int, string>, index: int, texts: seq<string>, k: int): Option<string> {
    if k < index then MarkAt(m, k)
    else if k >= index + |texts| then MarkAt(m, k - (|texts| - 1))
    else if k == index && index in m then Some(texts[0])
    else None
  }

  /** The marks after the split as evidently intended. */
  function Shifted(m: map<int, string>, index: int, texts: seq<string>): (r: map<int, string>)
    ensures forall k :: MarkAt(r, k) == ShiftedAt(m, index, texts, k)
  {
    var offset := |texts| - 1;
    var keys := (set k | k in m && k < index) + (set j | j in m && j > index :: j + offset) +
                (if index in m && |texts| > 0 then {index} else {});
    var r := map k | k in keys :: if k < index then m[k] else if k >= index + |texts| then m[k - offset] else texts[0];
    forall k ensures MarkAt(r, k) == ShiftedAt(m, index, texts, k) {
      if k >= index + |texts| && k - offset in m {
        assert k in keys by {
          assert k - offset > index;
          assert k == (k - offset) + offset;
        }
      }
    }
    r
  }

  /** Splitting as intended keeps every position coherent: each shows the
      same text it showed before the split, or its new part. */
  lemma ShiftedCoherent(paragraphs: seq<string>, processed: seq<string>, edited: map<int, string>,
                        normalize: string -> string, index: nat, texts: seq<string>)
    requires Coherent(paragraphs, processed, edited, normalize) && index < |paragraphs|
    ensures Coherent(Splice(paragraphs, index, texts), Splice(processed, index, MapSeq(normalize, texts)),
                     Shifted(edited, index, texts), normalize)
  {
    var p' := Splice(paragraphs, index, texts);
    var q' := Splice(processed, index, MapSeq(normalize, texts));
    var m' := Shifted(edited, index, texts);
    forall p | 0 <= p < |p'|
      ensures q'[p] == normalize(ParagraphText(p', m', p))
    {
      SpliceAt(paragraphs, index, texts, p);
      SpliceAt(processed, index, MapSeq(normalize, texts), p);
      assert MarkAt(m', p) == ShiftedAt(edited, index, texts, p);
      if p >= index + |texts| {
        assert MarkAt(edited, p - (|texts| - 1)) == MarkAt(m', p);
      }
    }
  }

  /** One turn of the written move loop: a position that had a mark when
      the split began, and still has one, moves it by `offset` and then
      deletes the old position. */
  function MoveMark(m: map<int, string>, had: set<int>, j: int, offset: int): (r: map<int, string>)
    ensures forall k :: k != j && k != j + offset ==> MarkAt(r, k) == MarkAt(m, k)
    ensures j in had && j in m && offset != 0 ==> j !in r && MarkAt(r, j + offset) == Some(m[j])
    ensures j in had && j in m && offset == 0 ==> j !in r
    ensures !(j in had && j in m) ==> r == m
  {
    if j in had && j in m then m[j + offset := m[j]] - {j} else m
  }

  /** The written loop over positions `j` down to `index + 1`. */
  function MovedFrom(m: map<int, string>, had: set<int>, index: int, j: int, offset: int): (r: map<int, string>)
    ensures offset >= -1 ==> forall k :: k < index ==> MarkAt(r, k) == MarkAt(m, k)
    decreases j - index
  {
    if j <= index then m else MovedFrom(MoveMark(m, had, j, offset), had, index, j - 1, offset)
  }

  /** The positions from `index` on that had a mark when the split began. */
  function HadMarks(m: map<int, string>, index: int, n: int): set<int> {
    set j | j in m && index <= j < n
  }

  /** The first part takes over the split paragraph's mark. */
  function FirstPartMark(m: map<int, string>, index: int, texts: seq<string>): map<int, string> {
    if index in m && |texts| > 0 then (m - {index})[index := texts[0]] else m - {index}
  }

  /** The marks `split_paragraph` leaves, as written. */
  function SplitMarksAsWritten(m: map<int, string>, index: int, n: int, texts: seq<string>): (r: map<int, string>)
    ensures forall k :: k < index ==> MarkAt(r, k) == MarkAt(m, k)
  {
    MovedFrom(FirstPartMark(m, index, texts), HadMarks(m, index, n), index, n - 1, |texts| - 1)
  }

  /** The written loop's state at `j` when the offset is positive: nothing
      at or below `j` has moved, and above `j` exactly the marks from
      above `j` sit `offset` further on. */
  ghost predicate MovedPrefix(cur: map<int, string>, m: map<int, string>, j: int, offset: int) {
    forall k :: MarkAt(cur, k) == MovedAt(m, j, offset, k)
  }

  function MovedAt(m: map<int, string>, j: int, offset: int, k: int): Option<string> {
    if k <= j then MarkAt(m, k) else if k - offset > j then MarkAt(m, k - offset) else None
  }

  lemma MoveMarkStep(cur: map<int, string>, m: map<int, string>, had: set<int>, j: int, offset: int)
    requires offset >= 1 && MovedPrefix(cur, m, j, offset)
    requires j in had <==> j in m
    ensures MovedPrefix(MoveMark(cur, had, j, offset), m, j - 1, offset)
  {
    var next := MoveMark(cur, had, j, offset);
    assert MarkAt(cur, j) == MovedAt(m, j, offset, j);
    forall k ensures MarkAt(next, k) == MovedAt(m, j - 1, offset, k) {
      assert MarkAt(cur, k) == MovedAt(m, j, offset, k);
    }
  }

  lemma {:induction false} MovedFromShifts(cur: map<int, string>, m: map<int, string>, had: set<int>, index: int,
                                           j: int, offset: int)
    requires offset >= 1 && index <= j && MovedPrefix(cur, m, j, offset)
    requires forall k :: index < k <= j ==> (k in had <==> k in m)
    ensures MovedPrefix(MovedFrom(cur, had, index, j, offset), m, index, offset)
    decreases j - index
  {
    if j > index {
      MoveMarkStep(cur, m, had, j, offset);
      MovedFromShifts(MoveMark(cur, had, j, offset), m, had, index, j - 1, offset);
    }
  }

  /** With two or more parts and every mark within the paragraphs, the
      written loop moves each mark after the split by `|texts| - 1`, as
      intended. */
  lemma AsWrittenShiftsFromTwoParts(m: map<int, string>, index: nat, n: nat, texts: seq<string>)
    requires index < n && |texts| >= 2
    requires forall k :: k in m ==> k < n
    ensures SplitMarksAsWritten(m, index, n, texts) == Shifted(m, index, texts)
  {
    var m1 := FirstPartMark(m, index, texts);
    var offset := |texts| - 1;
    assert MovedPrefix(m1, m1, n - 1, offset) by {
      forall k ensures MarkAt(m1, k) == MovedAt(m1, n - 1, offset, k) {
        if k > n - 1 {
          assert k !in m1;
          if k - offset > n - 1 {
            assert k - offset !in m1;
          }
        }
      }
    }
    MovedFromShifts(m1, m1, HadMarks(m, index, n), index, n - 1, offset);
    var r := SplitMarksAsWritten(m, index, n, texts);
    forall k ensures MarkAt(r, k) == MarkAt(Shifted(m, index, texts), k) {
      assert MarkAt(r, k) == MovedAt(m1, index, offset, k);
    }
    MarksEqual(r, Shifted(m, index, texts));
  }

  /** With offset 0 the written loop from `j` down to `index + 1` deletes
      exactly the marks at the positions in that range that had one when
      the split began, and adds or rewrites nothing. */
  lemma {:induction false} MovedFromDeletes(cur: map<int, string>, had: set<int>, index: int, j: int)
    ensures forall k :: MarkAt(MovedFrom(cur, had, index, j, 0), k) ==
                        if index < k <= j && k in had then None else MarkAt(cur, k)
    decreases j - index
  {
    if j > index {
      var next := MoveMark(cur, had, j, 0);
      MovedFromDeletes(next, had, index, j - 1);
      forall k ensures MarkAt(MovedFrom(cur, had, index, j, 0), k) ==
                       if index < k <= j && k in had then None else MarkAt(cur, k)
      {
        assert MarkAt(MovedFrom(cur, had, index, j, 0), k) ==
               if index < k <= j - 1 && k in had then None else MarkAt(next, k);
      }
    }
  }

  /** With one part the written loop deletes every mark after the split
      and keeps every other position as the first part leaves it, where
      the intended split keeps the later marks where they are. */
  lemma AsWrittenDropsAllWithOnePart(m: map<int, string>, index: nat, n: nat, texts: seq<string>)
    requires index < n && |texts| == 1
    ensures forall k :: index < k < n ==> k !in SplitMarksAsWritten(m, index, n, texts)
    ensures forall k :: !(index < k < n) ==>
      MarkAt(SplitMarksAsWritten(m, index, n, texts), k) == MarkAt(FirstPartMark(m, index, texts), k)
  {
    var m1 := FirstPartMark(m, index, texts);
    var had := HadMarks(m, index, n);
    MovedFromDeletes(m1, had, index, n - 1);
    forall k | index < k < n ensures k !in SplitMarksAsWritten(m, index, n, texts) {
      assert MarkAt(SplitMarksAsWritten(m, index, n, texts), k) == None by {
        if k in m1 {
          assert k in m;
          assert k in had;
        }
      }
    }
  }

  /** With one part the written loop moves each later mark onto itself
      and then deletes it: the mark of paragraph 1 is lost when paragraph
      0 is replaced by one text. */
  lemma AsWrittenDropsWithOnePart()
    ensures SplitMarksAsWritten(map[1 := "B"], 0, 2, ["x"]) == map[]
    ensures Shifted(map[1 := "B"], 0, ["x"]) == map[1 := "B"]
  {
    var m: map<int, string> := map[1 := "B"];
    assert HadMarks(m, 0, 2) == {1} by {
      assert 1 in HadMarks(m, 0, 2);
    }
    assert FirstPartMark(m, 0, ["x"]) == m;
    assert MoveMark(m, {1}, 1, 0) == map[];
    var s := Shifted(m, 0, ["x"]);
    forall k ensures MarkAt(s, k) == MarkAt(m, k) {
      assert MarkAt(s, k) == ShiftedAt(m, 0, ["x"], k);
    }
    MarksEqual(s, m);
  }

  /** With no parts (the paragraph is deleted) the written loop, moving
      marks down while walking down, carries the last mark all the way
      and overwrites the others: of the marks at 2 and 3 only the text of
      3 survives, at position 1. */
  lemma AsWrittenCascadesWithNoParts()
    ensures SplitMarksAsWritten(map[2 := "A", 3 := "B"], 0, 4, []) == map[1 := "B"]
    ensures Shifted(map[2 := "A", 3 := "B"], 0, []) == map[1 := "A", 2 := "B"]
  {
    var m: map<int, string> := map[2 := "A", 3 := "B"];
    assert HadMarks(m, 0, 4) == {2, 3} by {
      assert 2 in HadMarks(m, 0, 4) && 3 in HadMarks(m, 0, 4);
    }
    assert FirstPartMark(m, 0, []) == m;
    var a := MoveMark(m, {2, 3}, 3, -1);
    assert a == map[2 := "B"];
    var b := MoveMark(a, {2, 3}, 2, -1);
    assert b == map[1 := "B"];
    assert MoveMark(b, {2, 3}, 1, -1) == b;
    var s := Shifted(m, 0, []);
    var t: map<int, string> := map[1 := "A", 2 := "B"];
    forall k ensures MarkAt(s, k) == MarkAt(t, k) {
      assert MarkAt(s, k) == ShiftedAt(m, 0, [], k);
    }
    MarksEqual(s, t);
  }

  /** `preprocess_paragraphs` for one paragraph: one with a line break
      becomes its stripped non-blank lines, any other is kept as it is. */
  function PreprocessOne(para: string): (r: seq<string>)
    ensures forall i :: 0 <= i < |r| ==> '\n' !in r[i]
    ensures '\n' !in para ==> r == [para]
  {
    if '\n' in para then NonBlankLines(Split(para, '\n')) else [para]
  }

  /** The stripped non-blank lines, in order. */
  function NonBlankLines(lines: seq<string>): (r: seq<string>)
    requires forall i :: 0 <= i < |lines| ==> '\n' !in lines[i]
    ensures forall i :: 0 <= i < |r| ==> '\n' !in r[i] && r[i] != ""
    ensures |r| <= |lines|
  {
    if |lines| == 0 then []
    else
      var line := Strip(lines[0]);
      StripKeeps(lines[0], '\n');
      var rest := NonBlankLines(lines[1..]);
      if line != "" then [line] + rest else rest
  }

  /** Stripping adds no character. */
  lemma StripKeeps(s: string, c: char)
    requires c !in s
    ensures c !in Strip(s)
  {
    var l := TrimLeft(s);
    assert l == s[|s| - |l|..];
    assert c !in l by {
      forall i | 0 <= i < |l| ensures l[i] != c {
        assert l[i] == s[|s| - |l| + i];
      }
    }
    var r := TrimRight(l);
    assert r == l[..|r|];
    forall i | 0 <= i < |r| ensures r[i] != c {
      assert r[i] == l[i];
    }
  }

  /** The paragraphs after `preprocess_paragraphs`. */
  function Preprocessed(paras: seq<string>): (r: seq<string>)
    ensures forall i :: 0 <= i < |r| ==> '\n' !in r[i]
  {
    if |paras| == 0 then [] else PreprocessOne(paras[0]) + Preprocessed(paras[1..])
  }

  /** Paragraphs without line breaks are left as they are. */
  lemma {:induction false} PreprocessedKeeps(paras: seq<string>)
    requires forall i :: 0 <= i < |paras| ==> '\n' !in paras[i]
    ensures Preprocessed(paras) == paras
  {
    if |paras| > 0 {
      PreprocessedKeeps(paras[1..]);
      assert paras == [paras[0]] + paras[1..];
    }
  }

  /** Hence preprocessing twice is preprocessing once. */
  lemma PreprocessIdempotent(paras: seq<string>)
    ensures Preprocessed(Preprocessed(paras)) == Preprocessed(paras)
  {
    PreprocessedKeeps(Preprocessed(paras));
  }

  lemma PreprocessedStep(paras: seq<string>, i: nat)
    requires i < |paras|
    ensures Preprocessed(paras[..i + 1]) == Preprocessed(paras[..i]) + PreprocessOne(paras[i])
    decreases i
  {
    if i == 0 {
      assert paras[..1] == [paras[0]];
      assert paras[..1][1..] == [];
    } else {
      assert paras[..i + 1][1..] == paras[1..][..i];
      assert paras[..i][1..] == paras[1..][..i - 1];
      PreprocessedStep(paras[1..], i - 1);
    }
  }

  /** One entry of `compare_with_srt`: match, Word text, Word index and
      difference. */
  datatype Comparison = Comparison(matched: bool, wordText: string, wordIndex: int, difference: string)

  const NoParagraph: string := "Word 文檔中無對應段落"
  const OutOfRange: string := "超出 Word 文檔範圍"

  /** The entry for SRT text `i`: beyond the paragraphs it is a mismatch
      with Word index -1; otherwise paragraph `i`, a match when the
      similarity of the comparison forms exceeds 0.7, else a mismatch
      with the difference details. */
  function CompareAt(paragraphs: seq<string>, processed: seq<string>, srtTexts: seq<string>, i: nat,
                     normalize: string -> string, similarity: (string, string) -> real,
                     difference: (string, string) -> string): (c: Comparison)
    requires |processed| == |paragraphs| && i < |srtTexts|
    ensures c.wordIndex == (if i < |paragraphs| then i else -1)
    ensures i >= |paragraphs| ==> !c.matched
    ensures c.matched <==> i < |paragraphs| && similarity(normalize(srtTexts[i]), processed[i]) > 0.7
  {
    if i < |paragraphs| then
      if similarity(normalize(srtTexts[i]), processed[i]) > 0.7 then Comparison(true, paragraphs[i], i, "")
      else Comparison(false, paragraphs[i], i, difference(srtTexts[i], paragraphs[i]))
    else Comparison(false, NoParagraph, -1, OutOfRange)
  }

  /** The positions `0 .. n - 1`. */
  function Positions(n: nat): (r: set<int>)
    ensures forall i :: i in r <==> 0 <= i < n
  {
    if n == 0 then {} else Positions(n - 1) + {n - 1}
  }

  /** The move loop of `split_paragraph`: from the last position down to
      the one after the split paragraph. */
  method MoveLaterMarks(m: map<int, string>, had: set<int>, index: int, n: int, offset: int)
    returns (r: map<int, string>)
    requires index < n
    ensures r == MovedFrom(m, had, index, n - 1, offset)
  {
    r := m;
    var j := n - 1;
    while j > index
      invariant index <= j <= n - 1
      invariant MovedFrom(r, had, index, j, offset) == MovedFrom(m, had, index, n - 1, offset)
      decreases j - index
    {
      if j in had && j in r {
        r := r[j + offset := r[j]] - {j};
      }
      j := j - 1;
    }
  }

  /** Inserting `x` right after `done` in `before + done + after`. */
  lemma InsertAfter(before: seq<string>, done: seq<string>, after: seq<string>, x: string)
    ensures var s := before + done + after;
      s[..|before| + |done|] + [x] + s[|before| + |done|..] == before + (done + [x]) + after
  {
    var s := before + done + after;
    assert s[..|before| + |done|] == before + done;
    assert s[|before| + |done|..] == after;
  }

  /** The insertion loop of `split_paragraph`: part `i` goes in at
      `index + i` in both lists, and the first part takes the split
      paragraph's mark when it had one. */
  method InsertParts(before: seq<string>, after: seq<string>, beforeP: seq<string>, afterP: seq<string>,
                     texts: seq<string>, normalize: string -> string, marks: map<int, string>, index: int,
                     hadEdit: bool)
    returns (paragraphs: seq<string>, processed: seq<string>, edited: map<int, string>)
    requires |before| == index && |beforeP| == index
    ensures paragraphs == before + texts + after
    ensures processed == beforeP + MapSeq(normalize, texts) + afterP
    ensures edited == (if hadEdit && |texts| > 0 then marks[index := texts[0]] else marks)
  {
    paragraphs, processed, edited := before + after, beforeP + afterP, marks;
    var i := 0;
    while i < |texts|
      invariant 0 <= i <= |texts|
      invariant paragraphs == before + texts[..i] + after
      invariant processed == beforeP + MapSeq(normalize, texts[..i]) + afterP
      invariant edited == (if hadEdit && i > 0 then marks[index := texts[0]] else marks)
    {
      InsertAfter(before, texts[..i], after, texts[i]);
      InsertAfter(beforeP, MapSeq(normalize, texts[..i]), afterP, normalize(texts[i]));
      paragraphs := paragraphs[..index + i] + [texts[i]] + paragraphs[index + i..];
      processed := processed[..index + i] + [normalize(texts[i])] + processed[index + i..];
      assert texts[..i + 1] == texts[..i] + [texts[i]];
      assert MapSeq(normalize, texts[..i + 1]) == MapSeq(normalize, texts[..i]) + [normalize(texts[i])];
      if hadEdit && i == 0 {
        edited := edited[index := texts[i]];
      }
      i := i + 1;
    }
    assert texts[..|texts|] == texts;
  }

  /** The Word document's paragraph state. */
  class WordProcessor {
    var textContent: string
    var paragraphs: seq<string>
    var processedParagraphs: seq<string>
    var editedParagraphs: map<int, string>
    /** `_remove_punctuation_and_spaces`, the comparison form of a text. */
    const normalize: string -> string

    predicate Valid()
      reads this
    {
      |processedParagraphs| == |paragraphs|
    }

    /** A processor with no document. */
    constructor(normalize: string -> string)
      ensures Valid() && this.normalize == normalize
      ensures textContent == "" && paragraphs == [] && processedParagraphs == [] && editedParagraphs == map[]
    {
      this.normalize := normalize;
      textContent := "";
      paragraphs := [];
      processedParagraphs := [];
      editedParagraphs := map[];
    }

    predicate IsCoherent()
      reads this
    {
      Coherent(paragraphs, processedParagraphs, editedParagraphs, normalize)
    }

    /** `get_paragraph_text(index)`. */
    function GetParagraphText(index: int): (t: string)
      reads this
      ensures t == ParagraphText(paragraphs, editedParagraphs, index)
    {
      if index in editedParagraphs then editedParagraphs[index]
      else if 0 <= index < |paragraphs| then paragraphs[index]
      else ""
    }

    /** `edit_paragraph(index, text)`: in range, the edited text and the
        comparison form are replaced and the paragraph list is kept;
        otherwise nothing changes. */
    method EditParagraph(index: int, newText: string) returns (edited: bool)
      requires Valid()
      modifies this
      ensures Valid()
      ensures edited <==> 0 <= index < |paragraphs|
      ensures paragraphs == old(paragraphs) && textContent == old(textContent)
      ensures edited ==> editedParagraphs == old(editedParagraphs)[index := newText]
      ensures edited ==> processedParagraphs == old(processedParagraphs)[index := normalize(newText)]
      ensures !edited ==> editedParagraphs == old(editedParagraphs)
      ensures !edited ==> processedParagraphs == old(processedParagraphs)
      ensures edited ==> GetParagraphText(index) == newText
      ensures old(IsCoherent()) ==> IsCoherent()
    {
      if 0 <= index < |paragraphs| {
        editedParagraphs := editedParagraphs[index := newText];
        processedParagraphs := processedParagraphs[index := normalize(newText)];
        return true;
      }
      return false;
    }

    /** `split_paragraph(index, texts)` as written: the paragraph is
        replaced by the parts in both lists, the first part inherits its
        mark, and the later marks are moved by the written loop. */
    method SplitParagraphAsWritten(index: int, texts: seq<string>) returns (newIndices: seq<int>)
      requires Valid()
      modifies this
      ensures Valid()
      ensures !(0 <= index < old(|paragraphs|)) ==>
        newIndices == [] && paragraphs == old(paragraphs) && processedParagraphs == old(processedParagraphs) &&
        editedParagraphs == old(editedParagraphs) && textContent == old(textContent)
      ensures 0 <= index < old(|paragraphs|) ==> paragraphs == Splice(old(paragraphs), index, texts)
      ensures 0 <= index < old(|paragraphs|) ==>
        processedParagraphs == Splice(old(processedParagraphs), index, MapSeq(normalize, texts))
      ensures 0 <= index < old(|paragraphs|) ==>
        editedParagraphs == SplitMarksAsWritten(old(editedParagraphs), index, old(|paragraphs|), texts)
      ensures 0 <= index < old(|paragraphs|) ==> newIndices == seq(|texts|, i => index + i)
      ensures 0 <= index < old(|paragraphs|) ==> textContent == Join(paragraphs, "\n")
    {
      if index < 0 || index >= |paragraphs| {
        return [];
      }
      var n := |paragraphs|;
      var snapshot := HadMarks(editedParagraphs, index, n);
      SpliceParts(index, texts);
      var moved := MoveLaterMarks(editedParagraphs, snapshot, index, n, |texts| - 1);
      newIndices := seq(|texts|, i => index + i);
      editedParagraphs, textContent := moved, Join(paragraphs, "\n");
    }

    /** The part of `split_paragraph` both versions share: the parts
        inserted one by one in place of paragraph `index`, and the mark of
        the split paragraph handed to the first part. */
    method SpliceParts(index: nat, texts: seq<string>)
      requires Valid() && index < |paragraphs|
      modifies this
      ensures Valid()
      ensures paragraphs == Splice(old(paragraphs), index, texts)
      ensures processedParagraphs == Splice(old(processedParagraphs), index, MapSeq(normalize, texts))
      ensures editedParagraphs == FirstPartMark(old(editedParagraphs), index, texts)
      ensures textContent == old(textContent)
    {
      var hadEdit := index in editedParagraphs;
      ghost var marks := editedParagraphs;
      paragraphs, processedParagraphs, editedParagraphs :=
        InsertParts(paragraphs[..index], paragraphs[index + 1..], processedParagraphs[..index],
                    processedParagraphs[index + 1..], texts, normalize, editedParagraphs - {index}, index, hadEdit);
      assert FirstPartMark(marks, index, texts) ==
        (if hadEdit && |texts| > 0 then (marks - {index})[index := texts[0]] else marks - {index});
    }

    /** `split_paragraph` with the marks moved as intended: every mark
        after the split travels with its paragraph, for any number of
        parts, so each position keeps showing its own text. */
    method SplitParagraph(index: int, texts: seq<string>) returns (newIndices: seq<int>)
      requires Valid()
      modifies this
      ensures Valid()
      ensures !(0 <= index < old(|paragraphs|)) ==>
        newIndices == [] && paragraphs == old(paragraphs) && processedParagraphs == old(processedParagraphs) &&
        editedParagraphs == old(editedParagraphs) && textContent == old(textContent)
      ensures 0 <= index < old(|paragraphs|) ==>
        paragraphs == Splice(old(paragraphs), index, texts) &&
        processedParagraphs == Splice(old(processedParagraphs), index, MapSeq(normalize, texts)) &&
        editedParagraphs == Shifted(old(editedParagraphs), index, texts) &&
        newIndices == seq(|texts|, i => index + i) && textContent == Join(paragraphs, "\n")
      ensures old(IsCoherent()) ==> IsCoherent()
    {
      if index < 0 || index >= |paragraphs| {
        return [];
      }
      if IsCoherent() {
        ShiftedCoherent(paragraphs, processedParagraphs, editedParagraphs, normalize, index, texts);
      }
      var marks := editedParagraphs;
      SpliceParts(index, texts);
      editedParagraphs := Shifted(marks, index, texts);
      newIndices := seq(|texts|, i => index + i);
      textContent := Join(paragraphs, "\n");
    }

    /** `preprocess_paragraphs()`: paragraphs with line breaks become their
        stripped non-blank lines, and the comparison list is rebuilt. */
    method PreprocessParagraphs()
      modifies this
      ensures Valid()
      ensures paragraphs == Preprocessed(old(paragraphs))
      ensures processedParagraphs == MapSeq(normalize, paragraphs)
      ensures editedParagraphs == old(editedParagraphs) && textContent == old(textContent)
    {
      var result: seq<string> := [];
      var i := 0;
      while i < |paragraphs|
        invariant 0 <= i <= |paragraphs| && paragraphs == old(paragraphs)
        invariant editedParagraphs == old(editedParagraphs) && textContent == old(textContent)
        invariant result == Preprocessed(paragraphs[..i])
      {
        PreprocessedStep(paragraphs, i);
        var para := paragraphs[i];
        if '\n' in para {
          result := result + NonBlankLines(Split(para, '\n'));
        } else {
          result := result + [para];
        }
        i := i + 1;
      }
      assert paragraphs[..i] == paragraphs;
      paragraphs := result;
      processedParagraphs := MapSeq(normalize, result);
    }

    /** `compare_with_srt(srt_texts)`: `{}` without paragraphs, otherwise
        one entry per SRT text. */
    method CompareWithSrt(srtTexts: seq<string>, similarity: (string, string) -> real,
                          difference: (string, string) -> string)
      returns (results: map<int, Comparison>)
      requires Valid()
      ensures |paragraphs| == 0 ==> results == map[]
      ensures |paragraphs| > 0 ==> results.Keys == Positions(|srtTexts|)
      ensures |paragraphs| > 0 ==> forall i :: 0 <= i < |srtTexts| ==>
        results[i] == CompareAt(paragraphs, processedParagraphs, srtTexts, i, normalize, similarity, difference)
    {
      if |paragraphs| == 0 {
        return map[];
      }
      results := map[];
      var i := 0;
      while i < |srtTexts|
        invariant 0 <= i <= |srtTexts|
        invariant results.Keys == Positions(i)
        invariant forall k :: 0 <= k < i ==>
          results[k] == CompareAt(paragraphs, processedParagraphs, srtTexts, k, normalize, similarity, difference)
      {
        var entry: Comparison;
        if i < |paragraphs| {
          var processedSrt := normalize(srtTexts[i]);
          if similarity(processedSrt, processedParagraphs[i]) > 0.7 {
            entry := Comparison(true, paragraphs[i], i, "");
          } else {
            entry := Comparison(false, paragraphs[i], i, difference(srtTexts[i], paragraphs[i]));
          }
        } else {
          entry := Comparison(false, NoParagraph, -1, OutOfRange);
        }
        results := results[i := entry];
        i := i + 1;
      }
    }
  }
}
