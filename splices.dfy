/** The edit buffer: the overwrites and insertions recorded against the original
    text, and the text they produce. */
module Splices {
  import opened Js

  datatype Splice =
    | Overwrite(start: nat, end: nat, text: string)   // replace [start, end) by text
    | AppendLeft(pos: nat, text: string)               // insert text at pos
    | Append(text: string)                             // add text after the end

  /** Two overwrites target the same range or ranges that do not overlap. */
  predicate SameOrApart(a: Splice, b: Splice)
    requires a.Overwrite? && b.Overwrite?
  {
    (a.start == b.start && a.end == b.end) || a.end <= b.start || b.end <= a.start
  }

  predicate OverwritesInBounds(edits: seq<Splice>, n: nat) {
    forall k :: 0 <= k < |edits| && edits[k].Overwrite? ==> edits[k].start < edits[k].end <= n
  }

  /** A buffer the edit buffer accepts on a text of length `n`: overwrites are non-empty,
      in bounds, and pairwise identical or disjoint; insertions are in bounds and never
      strictly inside an overwritten range. */
  predicate WellFormed(edits: seq<Splice>, n: nat) {
    && OverwritesInBounds(edits, n)
    && (forall k :: 0 <= k < |edits| && edits[k].AppendLeft? ==> edits[k].pos <= n)
    && (forall j, k :: 0 <= j < |edits| && 0 <= k < |edits| && edits[j].Overwrite? && edits[k].Overwrite? ==>
          SameOrApart(edits[j], edits[k]))
    && (forall j, k :: 0 <= j < |edits| && 0 <= k < |edits| && edits[j].Overwrite? && edits[k].AppendLeft? ==>
          !(edits[j].start < edits[k].pos < edits[j].end))
  }

  /** The texts inserted at `i`, in the order they were recorded. */
  function InsertedAt(edits: seq<Splice>, i: nat): string {
    if edits == [] then []
    else (if edits[0].AppendLeft? && edits[0].pos == i then edits[0].text else []) + InsertedAt(edits[1..], i)
  }

  /** The texts appended after the end, in the order they were recorded. */
  function Appended(edits: seq<Splice>): string {
    if edits == [] then []
    else (if edits[0].Append? then edits[0].text else []) + Appended(edits[1..])
  }

  /** The last overwrite that starts at `i`: a later overwrite of the same range wins. */
  function OverwriteAt(edits: seq<Splice>, i: nat, n: nat): (r: Option<Splice>)
    requires OverwritesInBounds(edits, n)
    ensures r.Some? ==> r.value.Overwrite? && r.value.start == i && i < r.value.end <= n
  {
    if edits == [] then None
    else
      var last := edits[|edits| - 1];
      if last.Overwrite? && last.start == i then Some(last)
      else OverwriteAt(edits[..|edits| - 1], i, n)
  }

  /** The edited text from position `i` of the original on. */
  function ApplyFrom(content: string, edits: seq<Splice>, i: nat): string
    requires OverwritesInBounds(edits, |content|) && i <= |content|
    decreases |content| - i
  {
    var ins := InsertedAt(edits, i);
    if i == |content| then ins + Appended(edits)
    else match OverwriteAt(edits, i, |content|)
      case Some(o) => ins + o.text + ApplyFrom(content, edits, o.end)
      case None => ins + [content[i]] + ApplyFrom(content, edits, i + 1)
  }

  /** The edited text (what the edit buffer renders as a string). */
  function Apply(content: string, edits: seq<Splice>): string
    requires WellFormed(edits, |content|)
  {
    ApplyFrom(content, edits, 0)
  }

  lemma {:induction false} ApplyFromNoSplices(content: string, i: nat)
    requires i <= |content|
    ensures ApplyFrom(content, [], i) == content[i..]
    decreases |content| - i
  {
    if i < |content| {
      ApplyFromNoSplices(content, i + 1);
      assert content[i..] == [content[i]] + content[i + 1..];
    }
  }

  /** With nothing recorded, the output is the input. */
  lemma {:induction false} ApplyNoSplices(content: string)
    ensures WellFormed([], |content|) && Apply(content, []) == content
  {
    ApplyFromNoSplices(content, 0);
  }

  /** A position no overwrite starts at and nothing is inserted at copies its character. */
  lemma {:induction false} CopyStep(content: string, edits: seq<Splice>, i: nat)
    requires OverwritesInBounds(edits, |content|) && i < |content|
    requires OverwriteAt(edits, i, |content|).None? && InsertedAt(edits, i) == []
    ensures ApplyFrom(content, edits, i) == [content[i]] + ApplyFrom(content, edits, i + 1)
  {
    ApplyFromStep(content, edits, i);
  }

  /** A stretch with no overwrite starting and nothing inserted is copied unchanged. */
  lemma {:induction false} CopyRun(content: string, edits: seq<Splice>, i: nat, j: nat)
    requires OverwritesInBounds(edits, |content|) && i <= j <= |content|
    requires forall k :: i <= k < j ==> OverwriteAt(edits, k, |content|).None? && InsertedAt(edits, k) == []
    ensures ApplyFrom(content, edits, i) == content[i..j] + ApplyFrom(content, edits, j)
    decreases j - i
  {
    if i < j {
      CopyStep(content, edits, i);
      CopyRun(content, edits, i + 1, j);
      ConsSlice(content, i, j, ApplyFrom(content, edits, j));
    }
  }

  lemma {:induction false} ConsSlice(s: string, i: nat, j: nat, tail: string)
    requires i < j <= |s|
    ensures [s[i]] + (s[i + 1..j] + tail) == s[i..j] + tail
  {
    assert s[i..j] == [s[i]] + s[i + 1..j];
  }

  /** A single overwrite: well formed, nothing inserted or appended, and the only
      overwrite position is its start. */
  lemma {:induction false} OneOverwrite(n: nat, s: nat, e: nat, t: string)
    requires s < e <= n
    ensures WellFormed([Overwrite(s, e, t)], n)
    ensures Appended([Overwrite(s, e, t)]) == []
    ensures forall i :: InsertedAt([Overwrite(s, e, t)], i) == []
    ensures forall i :: OverwriteAt([Overwrite(s, e, t)], i, n) == if i == s then Some(Overwrite(s, e, t)) else None
  {
    var edits := [Overwrite(s, e, t)];
    assert edits[..0] == [] && edits[1..] == [];
  }

  /** After a single overwrite's range the original text is copied to the end. */
  lemma {:induction false} ApplyFromAfterOverwrite(content: string, s: nat, e: nat, t: string, i: nat)
    requires s < e <= i <= |content|
    ensures WellFormed([Overwrite(s, e, t)], |content|)
    ensures ApplyFrom(content, [Overwrite(s, e, t)], i) == content[i..]
  {
    var edits := [Overwrite(s, e, t)];
    OneOverwrite(|content|, s, e, t);
    CopyRun(content, edits, i, |content|);
    assert ApplyFrom(content, edits, |content|) == [];
  }

  /** Before a single overwrite, the text up to its start is copied, then its text
      replaces the range. */
  lemma {:induction false} ApplyFromBeforeOverwrite(content: string, s: nat, e: nat, t: string, i: nat)
    requires i <= s < e <= |content|
    ensures WellFormed([Overwrite(s, e, t)], |content|)
    ensures ApplyFrom(content, [Overwrite(s, e, t)], i) == content[i..s] + t + content[e..]
  {
    var edits := [Overwrite(s, e, t)];
    OneOverwrite(|content|, s, e, t);
    CopyRun(content, edits, i, s);
    ApplyFromStep(content, edits, s);
    ApplyFromAfterOverwrite(content, s, e, t, e);
  }

  /** A single overwrite replaces exactly its range. */
  lemma {:induction false} ApplyOneOverwrite(content: string, s: nat, e: nat, t: string)
    requires s < e <= |content|
    ensures WellFormed([Overwrite(s, e, t)], |content|)
    ensures Apply(content, [Overwrite(s, e, t)]) == content[..s] + t + content[e..]
  {
    ApplyFromBeforeOverwrite(content, s, e, t, 0);
  }

  /** A single insertion in bounds: nothing overwritten or appended, and its text
      inserted only at its position. */
  lemma {:induction false} OneAppendLeft(n: nat, p: nat, t: string)
    requires p <= n
    ensures OverwritesInBounds([AppendLeft(p, t)], n)
    ensures Appended([AppendLeft(p, t)]) == []
    ensures forall i :: InsertedAt([AppendLeft(p, t)], i) == if i == p then t else []
    ensures forall i :: OverwriteAt([AppendLeft(p, t)], i, n).None?
  {
    var edits := [AppendLeft(p, t)];
    assert edits[..0] == [] && edits[1..] == [];
    assert t + [] == t;
  }

  /** The text from the start of the original, with one insertion. */
  lemma {:induction false} ApplyFromAppendLeft(content: string, p: nat, t: string)
    requires p <= |content|
    ensures OverwritesInBounds([AppendLeft(p, t)], |content|)
    ensures ApplyFrom(content, [AppendLeft(p, t)], 0) == content[..p] + (t + content[p..])
  {
    var edits := [AppendLeft(p, t)];
    OneAppendLeft(|content|, p, t);
    AtAppendLeft(content, p, t);
    CopyRun(content, edits, 0, p);
  }

  /** The text from an insertion's position on: its text, then the original. */
  lemma {:induction false} AtAppendLeft(content: string, p: nat, t: string)
    requires p <= |content|
    ensures OverwritesInBounds([AppendLeft(p, t)], |content|)
    ensures ApplyFrom(content, [AppendLeft(p, t)], p) == t + content[p..]
  {
    var edits := [AppendLeft(p, t)];
    OneAppendLeft(|content|, p, t);
    var rest := content[p..];
    if p < |content| {
      CopyRun(content, edits, p + 1, |content|);
      assert ApplyFrom(content, edits, |content|) == [];
      InsertStep(content, edits, p);
      ConsSlice(content, p, |content|, []);
      assert rest == content[p..|content|] + [];
    } else {
      assert ApplyFrom(content, edits, p) == t + [];
    }
  }

  /** A position where text is inserted and no overwrite starts: the inserted text,
      then the character. */
  lemma {:induction false} InsertStep(content: string, edits: seq<Splice>, i: nat)
    requires OverwritesInBounds(edits, |content|) && i < |content|
    requires OverwriteAt(edits, i, |content|).None?
    ensures ApplyFrom(content, edits, i) == InsertedAt(edits, i) + ([content[i]] + ApplyFrom(content, edits, i + 1))
  {
    ApplyFromStep(content, edits, i);
    AppendAssoc(InsertedAt(edits, i), [content[i]], ApplyFrom(content, edits, i + 1));
  }

  /** One insertion puts its text at its position and copies the rest of the text around it. */
  lemma {:induction false} ApplyAppendLeft(content: string, p: nat, t: string)
    requires p <= |content|
    ensures WellFormed([AppendLeft(p, t)], |content|)
    ensures Apply(content, [AppendLeft(p, t)]) == content[..p] + t + content[p..]
  {
    ApplyFromAppendLeft(content, p, t);
    AppendAssoc(content[..p], t, content[p..]);
  }

  /** Two overwrites, the first ending at or before the second starts: in bounds, nothing
      inserted or appended, and each found at its own start. */
  lemma {:induction false} TwoOverwrites(n: nat, s1: nat, e1: nat, t1: string, s2: nat, e2: nat, t2: string)
    requires s1 < e1 <= s2 < e2 <= n
    ensures var edits := [Overwrite(s1, e1, t1), Overwrite(s2, e2, t2)];
      && OverwritesInBounds(edits, n)
      && Appended(edits) == []
      && (forall i :: InsertedAt(edits, i) == [])
      && (forall i :: OverwriteAt(edits, i, n) ==
            if i == s2 then Some(Overwrite(s2, e2, t2)) else if i == s1 then Some(Overwrite(s1, e1, t1)) else None)
  {
    var edits := [Overwrite(s1, e1, t1), Overwrite(s2, e2, t2)];
    OneOverwrite(n, s1, e1, t1);
    OneOverwrite(n, s2, e2, t2);
    assert edits[..1] == [Overwrite(s1, e1, t1)] && edits[1..] == [Overwrite(s2, e2, t2)];
    forall i ensures InsertedAt(edits, i) == [] {
      assert InsertedAt(edits, i) == [] + InsertedAt(edits[1..], i);
    }
    forall i ensures OverwriteAt(edits, i, n) ==
        if i == s2 then Some(Overwrite(s2, e2, t2)) else if i == s1 then Some(Overwrite(s1, e1, t1)) else None {
      assert i != s2 ==> OverwriteAt(edits, i, n) == OverwriteAt(edits[..1], i, n);
    }
    assert Appended(edits) == [] + Appended(edits[1..]);
  }

  /** The text of two disjoint overwrites, from the start of the original. */
  lemma {:induction false} ApplyFromTwoOverwrites(content: string, s1: nat, e1: nat, t1: string, s2: nat, e2: nat, t2: string)
    requires s1 < e1 <= s2 < e2 <= |content|
    ensures OverwritesInBounds([Overwrite(s1, e1, t1), Overwrite(s2, e2, t2)], |content|)
    ensures ApplyFrom(content, [Overwrite(s1, e1, t1), Overwrite(s2, e2, t2)], 0)
         == content[..s1] + (t1 + (content[e1..s2] + (t2 + content[e2..])))
  {
    var edits := [Overwrite(s1, e1, t1), Overwrite(s2, e2, t2)];
    TwoOverwrites(|content|, s1, e1, t1, s2, e2, t2);
    var tail := content[e2..];
    CopyRun(content, edits, e2, |content|);
    assert ApplyFrom(content, edits, |content|) == [];
    assert ApplyFrom(content, edits, e2) == tail by {
      assert content[e2..|content|] + [] == tail;
    }
    OverwriteStep(content, edits, s2, Overwrite(s2, e2, t2));
    CopyRun(content, edits, e1, s2);
    assert s1 != s2;
    OverwriteStep(content, edits, s1, Overwrite(s1, e1, t1));
    CopyRun(content, edits, 0, s1);
  }

  /** An overwrite starting at `i`, with nothing inserted there, replaces its range. */
  lemma {:induction false} OverwriteStep(content: string, edits: seq<Splice>, i: nat, o: Splice)
    requires OverwritesInBounds(edits, |content|) && i < |content|
    requires OverwriteAt(edits, i, |content|) == Some(o) && InsertedAt(edits, i) == []
    ensures ApplyFrom(content, edits, i) == o.text + ApplyFrom(content, edits, o.end)
  {
    ApplyFromStep(content, edits, i);
  }

  /** Two disjoint overwrites replace their ranges and copy the text before, between and
      after them. */
  lemma {:induction false} ApplyTwoOverwrites(content: string, s1: nat, e1: nat, t1: string, s2: nat, e2: nat, t2: string)
    requires s1 < e1 <= s2 < e2 <= |content|
    ensures WellFormed([Overwrite(s1, e1, t1), Overwrite(s2, e2, t2)], |content|)
    ensures Apply(content, [Overwrite(s1, e1, t1), Overwrite(s2, e2, t2)])
         == content[..s1] + t1 + content[e1..s2] + t2 + content[e2..]
  {
    ApplyFromTwoOverwrites(content, s1, e1, t1, s2, e2, t2);
    var x, y, z := content[e1..s2], t2, content[e2..];
    AppendAssoc(x, y, z);
    AppendAssoc(t1, x + y, z);
    AppendAssoc(t1, x, y);
    AppendAssoc(content[..s1], ((t1 + x) + y), z);
    AppendAssoc(content[..s1], (t1 + x), y);
    AppendAssoc(content[..s1], t1, x);
  }

  lemma {:induction false} AppendedSnoc(edits: seq<Splice>, t: string)
    ensures Appended(edits + [Append(t)]) == Appended(edits) + t
  {
    if edits != [] {
      assert (edits + [Append(t)])[1..] == edits[1..] + [Append(t)];
      AppendedSnoc(edits[1..], t);
    } else {
      assert [Append(t)][1..] == [];
    }
  }

  lemma {:induction false} InsertedAtSnoc(edits: seq<Splice>, t: string, i: nat)
    ensures InsertedAt(edits + [Append(t)], i) == InsertedAt(edits, i)
  {
    if edits != [] {
      assert (edits + [Append(t)])[1..] == edits[1..] + [Append(t)];
      InsertedAtSnoc(edits[1..], t, i);
    } else {
      assert [Append(t)][1..] == [];
    }
  }

  lemma {:induction false} ApplyFromAppend(content: string, edits: seq<Splice>, t: string, i: nat)
    requires OverwritesInBounds(edits, |content|) && i <= |content|
    ensures OverwritesInBounds(edits + [Append(t)], |content|)
    ensures ApplyFrom(content, edits + [Append(t)], i) == ApplyFrom(content, edits, i) + t
    decreases |content| - i
  {
    var more := edits + [Append(t)];
    OverwriteAtSnoc(edits, t, i, |content|);
    InsertedAtSnoc(edits, t, i);
    var ins := InsertedAt(edits, i);
    if i == |content| {
      AppendedSnoc(edits, t);
      AppendAssoc(ins, Appended(edits), t);
    } else {
      ApplyFromStep(content, edits, i);
      ApplyFromStep(content, more, i);
      match OverwriteAt(edits, i, |content|)
      case Some(o) =>
        ApplyFromAppend(content, edits, t, o.end);
        AppendAssoc(ins + o.text, ApplyFrom(content, edits, o.end), t);
      case None =>
        ApplyFromAppend(content, edits, t, i + 1);
        AppendAssoc(ins + [content[i]], ApplyFrom(content, edits, i + 1), t);
    }
  }

  /** One position of the edited text, before the end of the original. */
  lemma {:induction false} ApplyFromStep(content: string, edits: seq<Splice>, i: nat)
    requires OverwritesInBounds(edits, |content|) && i < |content|
    ensures var o := OverwriteAt(edits, i, |content|);
      && (o.Some? ==> ApplyFrom(content, edits, i) == InsertedAt(edits, i) + o.value.text + ApplyFrom(content, edits, o.value.end))
      && (o.None? ==> ApplyFrom(content, edits, i) == InsertedAt(edits, i) + [content[i]] + ApplyFrom(content, edits, i + 1))
  {
  }

  /** An appended block is not an overwrite. */
  lemma {:induction false} OverwriteAtSnoc(edits: seq<Splice>, t: string, i: nat, n: nat)
    requires OverwritesInBounds(edits, n)
    ensures OverwritesInBounds(edits + [Append(t)], n)
    ensures OverwriteAt(edits + [Append(t)], i, n) == OverwriteAt(edits, i, n)
  {
    var more := edits + [Append(t)];
    assert more[..|more| - 1] == edits;
  }

  /** Appending text keeps a buffer well formed. */
  lemma {:induction false} WellFormedAppend(edits: seq<Splice>, t: string, n: nat)
    requires WellFormed(edits, n)
    ensures WellFormed(edits + [Append(t)], n)
  {
    var more := edits + [Append(t)];
    assert forall k :: 0 <= k < |edits| ==> more[k] == edits[k];
  }

  /** An appended block ends the output and leaves the rest of it unchanged. */
  lemma {:induction false} ApplyAppend(content: string, edits: seq<Splice>, t: string)
    requires WellFormed(edits, |content|)
    ensures WellFormed(edits + [Append(t)], |content|)
    ensures Apply(content, edits + [Append(t)]) == Apply(content, edits) + t
  {
    WellFormedAppend(edits, t, |content|);
    ApplyFromAppend(content, edits, t, 0);
  }
}
