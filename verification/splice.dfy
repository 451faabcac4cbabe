/**
 The classic component's text splice on selection (`handleNodeSelect`): the
 word being typed before the caret (the text after the last space before
 it) is replaced by the chosen caption, or the caption is inserted at the caret
 when that word is empty, and the caret is put just after the caption.
 */
module Splice {
  import opened Wrappers
  import opened Text

  /** An input value together with its caret position. */
  datatype Edit = Edit(value: string, caret: nat)

  /** `input.selectionStart`. The browser never reports a caret past the
      end of the input's value, so every caret the code sees is kept as is;
      the clamp only makes the functions below total. */
  function Clamp(value: string, caret: nat): (c: nat)
    ensures c <= |value|
    ensures caret <= |value| ==> c == caret
  {
    if caret <= |value| then caret else |value|
  }

  /** Start of the word before the caret: one past the last space before
      it, or the start of the value. */
  function WordStart(value: string, caret: nat): (w: nat)
    requires caret <= |value|
    ensures w <= caret
    ensures forall k :: w <= k < caret ==> value[k] != ' '
    ensures w == 0 || value[w - 1] == ' '
  {
    var before := value[..caret];
    var last := LastIndexOfChar(before, ' ');
    assert forall k :: last < k < caret ==> before[k] == value[k];
    last + 1
  }

  /** The word start is the only position with those three properties. */
  lemma WordStartUnique(value: string, caret: nat, w: nat)
    requires w <= caret <= |value|
    requires forall k :: w <= k < caret ==> value[k] != ' '
    requires w == 0 || value[w - 1] == ' '
    ensures WordStart(value, caret) == w
  {
    var v := WordStart(value, caret);
    if w > 0 {
      assert value[w - 1] == ' ';
    }
    if v > 0 {
      assert value[v - 1] == ' ';
    }
  }

  /** The text between the word start and the caret contains no space. */
  predicate NoSpace(s: string) {
    forall k :: 0 <= k < |s| ==> s[k] != ' '
  }

  /** The new value and caret after choosing `caption`: the word before the
      caret is cut out, `caption` takes its place and the caret follows the
      caption; the text after the caret is kept. When the word is empty this
      is an insertion at the caret. */
  function Splice(value: string, caret: nat, caption: string): (r: Edit)
    ensures var c := Clamp(value, caret);
            exists w: nat :: w <= c && r.caret == w + |caption| && r.caret <= |r.value|
              && NoSpace(value[w..c]) && (w == 0 || value[w - 1] == ' ')
              && r.value[..w] == value[..w]
              && r.value[w..r.caret] == caption
              && r.value[r.caret..] == value[c..]
    ensures |r.value| == |value| - (Clamp(value, caret) - WordStart(value, Clamp(value, caret))) + |caption|
  {
    var c := Clamp(value, caret);
    var w := WordStart(value, c);
    var term := value[w..c];
    var r := if term != "" then Edit(value[..w] + caption + value[c..], w + |caption|)
             else Edit(value[..c] + caption + value[c..], c + |caption|);
    assert r.value[..w] == value[..w];
    assert r.value[w..r.caret] == caption;
    assert r.value[r.caret..] == value[c..];
    r
  }

  /** The splice in terms of the word start of the clamped caret: the text
      up to the word start, the caption, then the text from the caret on. */
  lemma SpliceAt(value: string, caret: nat, caption: string)
    ensures var c := Clamp(value, caret);
            var w := WordStart(value, c);
            Splice(value, caret, caption) == Edit(value[..w] + caption + value[c..], w + |caption|)
  {
    var c := Clamp(value, caret);
    var w := WordStart(value, c);
    if value[w..c] == "" {
      assert w == c;
    }
  }

  /** The insertion case: with a space (or nothing) right before the caret,
      the caption is inserted there. */
  lemma InsertAtCaret(value: string, caret: nat, caption: string)
    requires caret <= |value| && (caret == 0 || value[caret - 1] == ' ')
    ensures Splice(value, caret, caption) == Edit(value[..caret] + caption + value[caret..], caret + |caption|)
  {
    WordStartUnique(value, caret, caret);
  }

  /** The replacement case: the word before the caret is replaced. */
  lemma ReplaceWord(value: string, caret: nat, caption: string)
    requires caret <= |value|
    ensures var w := WordStart(value, caret);
            Splice(value, caret, caption) == Edit(value[..w] + caption + value[caret..], w + |caption|)
  {
  }

  lemma ReplaceMidValue()
    ensures Splice("abc de", 3, "X") == Edit("X de", 1)
  {
    WordStartUnique("abc de", 3, 0);
    ReplaceWord("abc de", 3, "X");
    assert ("abc de"[..0] + "X" + "abc de"[3..]) == "X de";
  }

  lemma InsertIntoEmpty()
    ensures Splice("", 0, "Foo") == Edit("Foo", 3)
  {
    InsertAtCaret("", 0, "Foo");
    assert "Foo"[..0] + "Foo" + ""[0..] == "Foo";
  }

  lemma ReplaceLastWord()
    ensures Splice("abc de", 6, "XYZ") == Edit("abc XYZ", 7)
  {
    WordStartUnique("abc de", 6, 4);
    ReplaceWord("abc de", 6, "XYZ");
    assert "abc de"[..4] + "XYZ" + "abc de"[6..] == "abc XYZ";
  }

  lemma InsertAfterSpace()
    ensures Splice("abc ", 4, "X") == Edit("abc X", 5)
  {
    InsertAtCaret("abc ", 4, "X");
    assert "abc "[..4] + "X" + "abc "[4..] == "abc X";
  }

  /** Choosing the same space-free caption again right after a selection
      changes nothing: the caption itself is now the word before the caret
      and is replaced by itself. */
  lemma {:induction false} ReselectIsIdempotent(value: string, caret: nat, caption: string)
    requires NoSpace(caption)
    ensures var e := Splice(value, caret, caption);
            Splice(e.value, e.caret, caption) == e
  {
    var c := Clamp(value, caret);
    var w := WordStart(value, c);
    var e := Splice(value, caret, caption);
    ReplaceWord(value, c, caption);
    assert e.value == value[..w] + caption + value[c..];
    assert e.caret == w + |caption|;
    assert e.value[w..e.caret] == caption;
    forall k | w <= k < e.caret
      ensures e.value[k] != ' '
    {
      assert e.value[k] == caption[k - w];
    }
    if w > 0 {
      assert e.value[w - 1] == value[w - 1];
    }
    WordStartUnique(e.value, e.caret, w);
    ReplaceWord(e.value, e.caret, caption);
    assert e.value[..w] + caption + e.value[e.caret..] == e.value;
  }

  /** What the selection hands to `onChange`, as written: the replacement
      branch computes the new value but only dispatches a bare `change`
      event on the input, which carries no new value; only the insertion
      branch calls `onChange`. */
  function SelectionChangeAsWritten(value: string, caret: nat, caption: string): (r: Option<string>)
    ensures r.Some? <==> value[WordStart(value, Clamp(value, caret))..Clamp(value, caret)] == ""
    ensures r.Some? ==> r.value == Splice(value, caret, caption).value
  {
    var c := Clamp(value, caret);
    var w := WordStart(value, c);
    if value[w..c] != "" then None
    else Some(Splice(value, caret, caption).value)
  }

  /** What a selection reports, as written, in terms of the word start of
      the clamped caret: a new value exactly when the word is empty, and
      then the caption inserted at the caret; the caret always follows the
      caption. */
  lemma AsWrittenAt(value: string, caret: nat, caption: string)
    ensures var c := Clamp(value, caret);
            var w := WordStart(value, c);
            var ch := SelectionChangeAsWritten(value, caret, caption);
            && (ch.Some? <==> w == c)
            && (ch.Some? ==> ch.value == value[..c] + caption + value[c..])
            && Splice(value, caret, caption).caret == w + |caption|
  {
    SpliceAt(value, caret, caption);
    var c := Clamp(value, caret);
    var w := WordStart(value, c);
    assert (value[w..c] == "") == (w == c);
  }

  /** The as-written selection drops the replacement typed after a space. */
  lemma AsWrittenDropsReplacement()
    ensures SelectionChangeAsWritten("abc de", 6, "XYZ") == None
    ensures Splice("abc de", 6, "XYZ").value == "abc XYZ"
  {
    WordStartUnique("abc de", 6, 4);
    assert "abc de"[4..6] == "de";
    ReplaceLastWord();
  }

  /** The corrected selection: both branches hand the spliced value to
      `onChange`. */
  function SelectionChange(value: string, caret: nat, caption: string): (r: Option<string>)
    ensures r.Some?
    ensures r.value == Splice(value, caret, caption).value
  {
    Some(Splice(value, caret, caption).value)
  }

  /** With the correction the emitted value always holds the caption just
      before the new caret, in both branches. */
  lemma SelectionEmitsLabel(value: string, caret: nat, caption: string)
    ensures var e := Splice(value, caret, caption);
            SelectionChange(value, caret, caption) == Some(e.value)
            && |caption| <= e.caret <= |e.value|
            && e.value[e.caret - |caption|..e.caret] == caption
  {
  }
}
