/** The manual labelling tab: a session holding one label per uploaded image,
    a display order over the images, a cursor into that order and a reversed
    flag, the five actions that change it, and the CSV export over it. */
module Manual {
  import opened Wrappers
  import opened Text

  /** Longest value the number field accepts (`max_chars=16`). */
  const MaxChars: nat := 16

  /** `list(range(n))`. */
  function Identity(n: nat): (r: seq<nat>)
    ensures |r| == n && forall i :: 0 <= i < n ==> r[i] == i
  {
    if n == 0 then [] else Identity(n - 1) + [n - 1]
  }

  /** `list(reversed(s))`. */
  function Reverse<T>(s: seq<T>): (r: seq<T>)
    ensures |r| == |s| && forall k :: 0 <= k < |s| ==> r[k] == s[|s| - 1 - k]
  {
    if s == [] then [] else Reverse(s[1..]) + [s[0]]
  }

  lemma ReverseInvolutive<T>(s: seq<T>)
    ensures Reverse(Reverse(s)) == s
  {
  }

  lemma ReverseAppend<T>(a: seq<T>, b: seq<T>)
    ensures Reverse(a + b) == Reverse(b) + Reverse(a)
  {
  }

  /** Every entry of `order` is a position among `n` uploads. */
  predicate InRange(order: seq<nat>, n: nat) {
    forall k :: 0 <= k < |order| ==> order[k] < n
  }

  predicate Distinct(order: seq<nat>) {
    forall j, k :: 0 <= j < k < |order| ==> order[j] != order[k]
  }

  /** `order` lists each of the positions `0..n-1` exactly once. */
  predicate IsPermutation(order: seq<nat>, n: nat) {
    |order| == n && InRange(order, n) && Distinct(order)
  }

  lemma IdentityIsPermutation(n: nat)
    ensures IsPermutation(Identity(n), n)
  {
  }

  lemma ReversePermutation(order: seq<nat>, n: nat)
    requires IsPermutation(order, n)
    ensures IsPermutation(Reverse(order), n)
  {
    var r := Reverse(order);
    forall j, k | 0 <= j < k < |r|
      ensures r[j] != r[k]
    {
      assert r[j] == order[n - 1 - j] && r[k] == order[n - 1 - k];
    }
  }

  lemma {:induction false} DistinctValues(order: seq<nat>, m: nat)
    requires m <= |order| && Distinct(order)
    ensures |set k | 0 <= k < m :: order[k]| == m
  {
    if m > 0 {
      DistinctValues(order, m - 1);
      var before := set k | 0 <= k < m - 1 :: order[k];
      assert (set k | 0 <= k < m :: order[k]) == before + {order[m - 1]};
      assert order[m - 1] !in before;
    }
  }

  /** Pigeonhole: a permutation reaches every upload position, so the cursor
      can display every image. */
  lemma PermutationCovers(order: seq<nat>, n: nat)
    requires IsPermutation(order, n)
    ensures forall i :: 0 <= i < n ==> i in order
  {
    var values := set k | 0 <= k < n :: order[k];
    var ident := Identity(n);
    var all := set k | 0 <= k < n :: ident[k];
    DistinctValues(order, n);
    DistinctValues(ident, n);
    forall v | v in values
      ensures v in all
    {
      var k :| 0 <= k < n && order[k] == v;
      assert ident[v] == v;
    }
    var rest := all - values;
    assert all == values + rest;
    assert values * rest == {};
    assert |rest| == 0;
    forall i | 0 <= i < n
      ensures i in order
    {
      assert ident[i] == i;
      assert i in values;
      var k :| 0 <= k < n && order[k] == i;
    }
  }

  /** The manual tab's session state (`st.session_state`). */
  class ManualSession {
    /** `numeros`: one label per uploaded image, in upload order. */
    var labels: seq<string>
    /** `ordem`: the display order, a permutation of the upload positions. */
    var order: seq<nat>
    /** `manual_index`: the cursor, a position in `order`. */
    var index: nat
    /** `invertido`: flipped by every reversal of `order`. */
    var reversed: bool

    ghost predicate Valid()
      reads this
    {
      && 0 < |labels|
      && IsPermutation(order, |labels|)
      && index < |labels|
      && forall i :: 0 <= i < |labels| ==> |labels[i]| <= MaxChars
    }

    /** First upload of `fileCount` files in a session. */
    constructor (fileCount: nat)
      requires fileCount > 0
      ensures Valid()
      ensures |labels| == fileCount && forall i :: 0 <= i < fileCount ==> labels[i] == ""
      ensures order == Identity(fileCount) && index == 0 && !reversed
    {
      labels := seq(fileCount, _ => "");
      order := Identity(fileCount);
      index := 0;
      reversed := false;
      IdentityIsPermutation(fileCount);
    }

    /** The upload position of the image on display, `ordem[idx]`. */
    function Displayed(): (i: nat)
      reads this
      requires Valid()
      ensures i < |labels| && i in order
    {
      order[index]
    }

    /** The number field writes what was typed to the label of the image on
        display. */
    method Edit(value: string)
      requires Valid() && |value| <= MaxChars
      modifies this
      ensures Valid()
      ensures labels == old(labels[order[index] := value])
      ensures order == old(order) && index == old(index) && reversed == old(reversed)
    {
      labels := labels[order[index] := value];
    }

    /** The "previous" button: steps back unless at the first position. */
    method Previous()
      requires Valid()
      modifies this
      ensures Valid()
      ensures index == if old(index) > 0 then old(index) - 1 else old(index)
      ensures labels == old(labels) && order == old(order) && reversed == old(reversed)
    {
      if index > 0 {
        index := index - 1;
      }
    }

    /** The "next" button: steps forward unless at the last position. The
        number of uploads is `|labels|`. */
    method Next()
      requires Valid()
      modifies this
      ensures Valid()
      ensures index == if old(index) < |labels| - 1 then old(index) + 1 else old(index)
      ensures labels == old(labels) && order == old(order) && reversed == old(reversed)
    {
      if index < |labels| - 1 {
        index := index + 1;
      }
    }

    /** The "copy" button: the image on display takes the label of the image
        one display position earlier; nothing happens at the first position. */
    method CopyPrevious()
      requires Valid()
      modifies this
      ensures Valid()
      ensures old(index) > 0 ==> labels == old(labels[order[index] := labels[order[index - 1]]])
      ensures old(index) == 0 ==> labels == old(labels)
      ensures order == old(order) && index == old(index) && reversed == old(reversed)
    {
      if index > 0 {
        labels := labels[order[index] := labels[order[index - 1]]];
      }
    }

    /** The "reverse order" button: reverses the display order, flips the flag
        and returns the cursor to the first position. */
    method ReverseOrder()
      requires Valid()
      modifies this
      ensures Valid()
      ensures order == Reverse(old(order)) && reversed == !old(reversed) && index == 0
      ensures labels == old(labels)
    {
      ReversePermutation(order, |labels|);
      order := Reverse(order);
      reversed := !reversed;
      index := 0;
    }
  }

  /** A label typed for the image on display is found again after moving away
      and coming back. */
  method RevisitKeepsLabel(s: ManualSession, value: string)
    requires s.Valid() && |value| <= MaxChars && s.index + 1 < |s.labels|
    modifies s
    ensures s.Valid() && s.index == old(s.index) && s.order == old(s.order)
    ensures s.labels[s.Displayed()] == value
  {
    s.Edit(value);
    s.Next();
    s.Previous();
  }

  /** Reversing twice restores the display order and the flag. */
  method ReverseTwice(s: ManualSession)
    requires s.Valid()
    modifies s
    ensures s.Valid() && s.index == 0
    ensures s.order == old(s.order) && s.reversed == old(s.reversed) && s.labels == old(s.labels)
  {
    s.ReverseOrder();
    s.ReverseOrder();
    ReverseInvolutive(old(s.order));
  }

  /** The list comprehension of the export: one `name;label` row for each
      position of `order`, in that order, whose label is not empty. */
  function ManualLines(names: seq<string>, labels: seq<string>, order: seq<nat>): (lines: seq<string>)
    requires |names| == |labels| && InRange(order, |labels|)
    ensures |lines| <= |order|
    decreases |order|
  {
    if order == [] then []
    else
      var i := order[0];
      (if labels[i] != "" then [Line(names[i], labels[i])] else []) + ManualLines(names, labels, order[1..])
  }

  /** Export walks the order front to back: the rows of a concatenation are
      the rows of each part, in sequence. */
  lemma {:induction false} ManualLinesAppend(names: seq<string>, labels: seq<string>, o1: seq<nat>, o2: seq<nat>)
    requires |names| == |labels| && InRange(o1, |labels|) && InRange(o2, |labels|)
    ensures ManualLines(names, labels, o1 + o2) == ManualLines(names, labels, o1) + ManualLines(names, labels, o2)
    decreases |o1|
  {
    if o1 == [] {
      assert o1 + o2 == o2;
    } else {
      assert (o1 + o2)[1..] == o1[1..] + o2;
      ManualLinesAppend(names, labels, o1[1..], o2);
    }
  }

  /** No rows exactly when every label reached through `order` is empty. */
  lemma {:induction false} ManualLinesEmpty(names: seq<string>, labels: seq<string>, order: seq<nat>)
    requires |names| == |labels| && InRange(order, |labels|)
    ensures ManualLines(names, labels, order) == [] <==> forall k :: 0 <= k < |order| ==> labels[order[k]] == ""
    decreases |order|
  {
    if order != [] {
      ManualLinesEmpty(names, labels, order[1..]);
      assert forall k :: 1 <= k < |order| ==> order[k] == order[1..][k - 1];
    }
  }

  /** `line` is the row of some labelled image reached through `order`. */
  ghost predicate RowOf(names: seq<string>, labels: seq<string>, order: seq<nat>, line: string)
    requires |names| == |labels| && InRange(order, |labels|)
  {
    exists k :: 0 <= k < |order| && labels[order[k]] != "" && line == Line(names[order[k]], labels[order[k]])
  }

  /** Every row is the row of a labelled image reached through `order`. */
  lemma {:induction false} ManualLinesSound(names: seq<string>, labels: seq<string>, order: seq<nat>)
    requires |names| == |labels| && InRange(order, |labels|)
    ensures forall j :: 0 <= j < |ManualLines(names, labels, order)| ==>
      RowOf(names, labels, order, ManualLines(names, labels, order)[j])
    decreases |order|
  {
    if order != [] {
      var i := order[0];
      var head := if labels[i] != "" then [Line(names[i], labels[i])] else [];
      var tail := ManualLines(names, labels, order[1..]);
      var lines := ManualLines(names, labels, order);
      assert lines == head + tail;
      ManualLinesSound(names, labels, order[1..]);
      forall j | 0 <= j < |lines|
        ensures RowOf(names, labels, order, lines[j])
      {
        if j < |head| {
          assert labels[order[0]] != "" && lines[j] == Line(names[order[0]], labels[order[0]]);
        } else {
          assert lines[j] == tail[j - |head|];
          assert RowOf(names, labels, order[1..], tail[j - |head|]);
          var k :| 0 <= k < |order[1..]| && labels[order[1..][k]] != "" &&
            tail[j - |head|] == Line(names[order[1..][k]], labels[order[1..][k]]);
          assert order[1..][k] == order[k + 1];
        }
      }
    }
  }

  /** Every labelled image reached through `order` has its row. */
  lemma ManualLinesComplete(names: seq<string>, labels: seq<string>, order: seq<nat>, k: nat)
    requires |names| == |labels| && InRange(order, |labels|)
    requires k < |order| && labels[order[k]] != ""
    ensures Line(names[order[k]], labels[order[k]]) in ManualLines(names, labels, order)
  {
    assert order == order[..k] + order[k..];
    ManualLinesAppend(names, labels, order[..k], order[k..]);
    assert ManualLines(names, labels, order[k..])[0] == Line(names[order[k]], labels[order[k]]);
  }

  /** The export after a reversal lists the same rows in the opposite order. */
  lemma {:induction false} ManualLinesReverse(names: seq<string>, labels: seq<string>, order: seq<nat>)
    requires |names| == |labels| && InRange(order, |labels|)
    ensures ManualLines(names, labels, Reverse(order)) == Reverse(ManualLines(names, labels, order))
    decreases |order|
  {
    if order != [] {
      var head := ManualLines(names, labels, [order[0]]);
      var tail := order[1..];
      assert Reverse(order) == Reverse(tail) + [order[0]];
      ManualLinesReverse(names, labels, tail);
      ManualLinesAppend(names, labels, Reverse(tail), [order[0]]);
      assert order == [order[0]] + tail;
      ManualLinesAppend(names, labels, [order[0]], tail);
      ReverseAppend(head, ManualLines(names, labels, tail));
      assert Reverse(head) == head;
    }
  }

  /** The download offered by the manual tab: `"\n".join(linhas)`, and no
      download when there are no rows. */
  function ManualCsv(names: seq<string>, labels: seq<string>, order: seq<nat>): (csv: Option<string>)
    requires |names| == |labels| && InRange(order, |labels|)
    ensures csv.None? <==> forall k :: 0 <= k < |order| ==> labels[order[k]] == ""
  {
    var lines := ManualLines(names, labels, order);
    ManualLinesEmpty(names, labels, order);
    if lines != [] then Some(Join('\n', lines)) else None
  }

  /** When names and labels hold no newline, the downloaded file has exactly the
      export's rows as its lines. */
  lemma ManualCsvRows(names: seq<string>, labels: seq<string>, order: seq<nat>)
    requires |names| == |labels| && InRange(order, |labels|)
    requires forall i :: 0 <= i < |names| ==> '\n' !in names[i] && '\n' !in labels[i]
    ensures ManualCsv(names, labels, order).Some? ==>
      Split(ManualCsv(names, labels, order).value, '\n') == ManualLines(names, labels, order)
  {
    var lines := ManualLines(names, labels, order);
    ManualLinesSound(names, labels, order);
    forall j | 0 <= j < |lines|
      ensures '\n' !in lines[j]
    {
      assert RowOf(names, labels, order, lines[j]);
      var k :| 0 <= k < |order| && labels[order[k]] != "" && lines[j] == Line(names[order[k]], labels[order[k]]);
      assert lines[j] == names[order[k]] + (";" + labels[order[k]]);
    }
    if lines != [] {
      SplitJoin('\n', lines);
    }
  }

  /** With the session's own order, every labelled image, whatever its place,
      appears in the export. */
  lemma ManualExportCovers(names: seq<string>, labels: seq<string>, order: seq<nat>, i: nat)
    requires |names| == |labels| && IsPermutation(order, |labels|)
    requires i < |labels| && labels[i] != ""
    ensures Line(names[i], labels[i]) in ManualLines(names, labels, order)
  {
    PermutationCovers(order, |labels|);
    assert i in order;
    var k :| 0 <= k < |order| && order[k] == i;
    ManualLinesComplete(names, labels, order, k);
  }

  lemma ExampleRows(names: seq<string>, labels: seq<string>)
    requires names == ["a.jpg", "b.jpg", "c.jpg"] && labels == ["", "42", "7"]
    ensures ManualLines(names, labels, [0, 1, 2]) == ["b.jpg;42", "c.jpg;7"]
  {
    assert Line("c.jpg", "7") == "c.jpg;7" && Line("b.jpg", "42") == "b.jpg;42";
    assert ManualLines(names, labels, [2]) == ["c.jpg;7"] by {
      assert [2][1..] == [];
    }
    assert ManualLines(names, labels, [1, 2]) == ["b.jpg;42", "c.jpg;7"] by {
      assert [1, 2][1..] == [2];
    }
    assert [0, 1, 2][1..] == [1, 2];
  }

  lemma ExampleJoin()
    ensures Join('\n', ["b.jpg;42", "c.jpg;7"]) == "b.jpg;42\nc.jpg;7"
  {
    assert ["b.jpg;42", "c.jpg;7"][1..] == ["c.jpg;7"];
  }

  /** Three images, the first unlabelled, in upload order. */
  lemma ManualCsvExample()
    ensures ManualCsv(["a.jpg", "b.jpg", "c.jpg"], ["", "42", "7"], Identity(3)) == Some("b.jpg;42\nc.jpg;7")
  {
    assert Identity(3) == [0, 1, 2];
    ExampleRows(["a.jpg", "b.jpg", "c.jpg"], ["", "42", "7"]);
    ExampleJoin();
  }
}
