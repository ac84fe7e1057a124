/** The navigation-button merge of `buildAndSetFieldData`
    (src/composables/FieldData.ts, lines 158-191): the default buttons minus
    the hidden ones, then the custom ones, written into a table keyed by
    button index (a later button replaces an earlier one with the same
    index), read back in ascending index order and turned into resolved
    button state. */
module NavButtons {
  import opened Values
  import opened FieldInterfaces

  /** The default buttons whose name is not in `hidden`, in their order. */
  function Shown(footer: seq<FieldNavButton>, hidden: seq<string>): (r: seq<FieldNavButton>)
    ensures |r| <= |footer|
    decreases |footer|
  {
    if footer == [] then []
    else if footer[0].name in hidden then Shown(footer[1..], hidden)
    else [footer[0]] + Shown(footer[1..], hidden)
  }

  /** The filter keeps exactly the buttons whose name is not hidden. */
  lemma {:induction false} ShownMembers(footer: seq<FieldNavButton>, hidden: seq<string>)
    ensures forall b :: b in Shown(footer, hidden) <==> b in footer && b.name !in hidden
    decreases |footer|
  {
    if footer != [] {
      ShownMembers(footer[1..], hidden);
      assert forall b :: b in footer <==> b == footer[0] || b in footer[1..];
    }
  }

  /** The default buttons that survive the hidden list (the filter runs only
      when the list is non-empty). */
  function Defaults(footer: seq<FieldNavButton>, field: FieldInterface): seq<FieldNavButton> {
    if |field.hiddenButtons| == 0 then footer else Shown(footer, field.hiddenButtons)
  }

  /** The buttons written into `allButtons`, in writing order. */
  function Candidates(footer: seq<FieldNavButton>, field: FieldInterface): seq<FieldNavButton> {
    var defaults := Defaults(footer, field);
    if |field.customButtons| == 0 then defaults else defaults + field.customButtons
  }

  /** The position of the last button with index `k`, or -1 if there is none:
      the reference definition of "last insertion wins". */
  function LastIndexOf(bs: seq<FieldNavButton>, k: int): (r: int)
    ensures -1 <= r < |bs|
    decreases |bs|
  {
    if bs == [] then -1
    else if bs[|bs| - 1].index == k then |bs| - 1
    else LastIndexOf(bs[..|bs| - 1], k)
  }

  /** The position found holds index `k` and no later button does; -1 means
      no button does. */
  lemma {:induction false} LastIndexOfSpec(bs: seq<FieldNavButton>, k: int)
    ensures var r := LastIndexOf(bs, k);
      && (r >= 0 ==> bs[r].index == k && forall j :: r < j < |bs| ==> bs[j].index != k)
      && (r < 0 ==> forall j :: 0 <= j < |bs| ==> bs[j].index != k)
    decreases |bs|
  {
    if bs != [] && bs[|bs| - 1].index != k {
      var n := |bs| - 1;
      LastIndexOfSpec(bs[..n], k);
      assert forall j :: 0 <= j < n ==> bs[..n][j] == bs[j];
    }
  }

  /** `allButtons[btn.index] = btn` for every button in turn. */
  function IndexTable(bs: seq<FieldNavButton>): map<int, FieldNavButton>
    decreases |bs|
  {
    if bs == [] then map[]
    else IndexTable(bs[..|bs| - 1])[bs[|bs| - 1].index := bs[|bs| - 1]]
  }

  /** The table holds exactly the indices that occur, each with the last
      button carrying it. */
  lemma {:induction false} IndexTableSpec(bs: seq<FieldNavButton>)
    ensures forall k :: k in IndexTable(bs) <==> LastIndexOf(bs, k) >= 0
    ensures forall k :: k in IndexTable(bs) ==> IndexTable(bs)[k] == bs[LastIndexOf(bs, k)]
    decreases |bs|
  {
    if bs != [] {
      var n := |bs| - 1;
      IndexTableSpec(bs[..n]);
      forall k
        ensures k in IndexTable(bs) <==> LastIndexOf(bs, k) >= 0
      {
      }
      forall k | k in IndexTable(bs)
        ensures LastIndexOf(bs, k) >= 0 && IndexTable(bs)[k] == bs[LastIndexOf(bs, k)]
      {
        if k != bs[n].index {
          assert bs[..n][LastIndexOf(bs[..n], k)] == bs[LastIndexOf(bs[..n], k)];
        }
      }
    }
  }

  /** Strictly ascending order. */
  predicate Ascending(ks: seq<int>) {
    forall i, j :: 0 <= i < j < |ks| ==> ks[i] < ks[j]
  }

  /** `k` put into its place in an ascending list, unless it is there already. */
  function InsertKey(ks: seq<int>, k: int): seq<int>
    decreases |ks|
  {
    if ks == [] then [k]
    else if k < ks[0] then [k] + ks
    else if k == ks[0] then ks
    else [ks[0]] + InsertKey(ks[1..], k)
  }

  /** Insertion adds exactly `k` to the members. */
  lemma {:induction false} InsertKeyMembers(ks: seq<int>, k: int)
    ensures forall x :: x in InsertKey(ks, k) <==> x in ks || x == k
    decreases |ks|
  {
    if ks != [] && k > ks[0] {
      InsertKeyMembers(ks[1..], k);
      assert ks == [ks[0]] + ks[1..];
    }
  }

  /** Insertion keeps the list ascending. */
  lemma {:induction false} InsertKeyAscending(ks: seq<int>, k: int)
    requires Ascending(ks)
    ensures Ascending(InsertKey(ks, k))
    decreases |ks|
  {
    if ks == [] || k == ks[0] {
    } else if k < ks[0] {
      var r := [k] + ks;
      forall i, j | 0 <= i < j < |r|
        ensures r[i] < r[j]
      {
        assert r[j] == ks[j - 1];
        if i > 0 {
          assert r[i] == ks[i - 1];
        } else if j > 1 {
          assert ks[0] < ks[j - 1];
        }
      }
    } else {
      var tail := ks[1..];
      assert Ascending(tail) by {
        forall i, j | 0 <= i < j < |tail|
          ensures tail[i] < tail[j]
        {
          assert tail[i] == ks[i + 1] && tail[j] == ks[j + 1];
        }
      }
      InsertKeyAscending(tail, k);
      InsertKeyMembers(tail, k);
      var rest := InsertKey(tail, k);
      var r := [ks[0]] + rest;
      forall x | x in tail
        ensures ks[0] < x
      {
        var j :| 0 <= j < |tail| && tail[j] == x;
        assert ks[j + 1] == x;
      }
      forall i, j | 0 <= i < j < |r|
        ensures r[i] < r[j]
      {
        assert r[j] == rest[j - 1];
        assert rest[j - 1] in rest;
        if i > 0 {
          assert r[i] == rest[i - 1];
        }
      }
    }
  }

  /** The distinct button indices, ascending: the keys of `allButtons` in
      the order the sort leaves its values. */
  function SortedIndices(bs: seq<FieldNavButton>): seq<int>
    decreases |bs|
  {
    if bs == [] then []
    else InsertKey(SortedIndices(bs[..|bs| - 1]), bs[|bs| - 1].index)
  }

  /** The indices are ascending and are exactly those that occur. */
  lemma {:induction false} SortedIndicesSpec(bs: seq<FieldNavButton>)
    ensures Ascending(SortedIndices(bs))
    ensures forall k :: k in SortedIndices(bs) <==> LastIndexOf(bs, k) >= 0
    decreases |bs|
  {
    if bs != [] {
      var n := |bs| - 1;
      SortedIndicesSpec(bs[..n]);
      InsertKeyAscending(SortedIndices(bs[..n]), bs[n].index);
      InsertKeyMembers(SortedIndices(bs[..n]), bs[n].index);
    }
  }

  /** `Object.values(allButtons).sort((a, b) => a.index - b.index)`. */
  function SortedByIndex(bs: seq<FieldNavButton>): seq<FieldNavButton> {
    var t := IndexTable(bs);
    var ks := SortedIndices(bs);
    IndexTableSpec(bs);
    SortedIndicesSpec(bs);
    seq(|ks|, i requires 0 <= i < |ks| => assert ks[i] in ks; t[ks[i]])
  }

  /** The button definitions a field ends up with, in display order. */
  function MergedButtons(footer: seq<FieldNavButton>, field: FieldInterface): seq<FieldNavButton> {
    SortedByIndex(Candidates(footer, field))
  }

  /** `s || fallback` on an optional string property. */
  function OrDefault(s: Maybe<string>, fallback: string): string {
    if s.Just? && s.value != "" then s.value else fallback
  }

  /** The resolved state pushed for one button definition. */
  function InitialProps(b: FieldNavButton): FieldDataButtonProps {
    FieldDataButtonProps(
      name := b.name,
      index := b.index,
      color := Str("primary"),
      disabled := Bool(false),
      visible := Bool(true),
      size := OrDefault(b.size, "large"),
      slot := OrDefault(b.slot, "start"),
      cssClass := OrDefault(b.cssClass, ""),
      btnRef := b)
  }

  /** A field's initial `navButtonProps`: one resolved state per merged
      definition, in order. */
  function NavButtonProps(footer: seq<FieldNavButton>, field: FieldInterface): seq<FieldDataButtonProps> {
    var m := MergedButtons(footer, field);
    seq(|m|, i requires 0 <= i < |m| => InitialProps(m[i]))
  }

  // ---------------------------------------------------------------------
  // Properties of the merge

  /** Every table entry is stored under its own index, and the table's keys
      are exactly the indices that occur. */
  lemma {:induction false} TableKeysAreIndices(bs: seq<FieldNavButton>)
    ensures forall k :: k in IndexTable(bs) ==> IndexTable(bs)[k].index == k && IndexTable(bs)[k] in bs
    ensures forall j :: 0 <= j < |bs| ==> bs[j].index in IndexTable(bs)
  {
    var t := IndexTable(bs);
    IndexTableSpec(bs);
    forall k | k in t
      ensures t[k].index == k && t[k] in bs
    {
      var p := LastIndexOf(bs, k);
      LastIndexOfSpec(bs, k);
      assert t[k] == bs[p];
    }
    forall j | 0 <= j < |bs|
      ensures bs[j].index in t
    {
      var p := LastIndexOf(bs, bs[j].index);
      LastIndexOfSpec(bs, bs[j].index);
      assert p >= 0;
    }
  }

  /** The merged list is in strictly ascending index order, so it holds at
      most one button per index. */
  lemma {:induction false} MergedStrictlyAscending(footer: seq<FieldNavButton>, field: FieldInterface)
    ensures var m := MergedButtons(footer, field);
      forall i, j :: 0 <= i < j < |m| ==> m[i].index < m[j].index
  {
    var t := IndexTable(Candidates(footer, field));
    TableKeysAreIndices(Candidates(footer, field));
    IndexTableSpec(Candidates(footer, field));
    var ks := SortedIndices(Candidates(footer, field));
    SortedIndicesSpec(Candidates(footer, field));
    var m := MergedButtons(footer, field);
    assert |m| == |ks|;
    forall i | 0 <= i < |m|
      ensures m[i].index == ks[i]
    {
      assert m[i] == t[ks[i]];
    }
  }

  /** An index occurs in the merged list exactly when some candidate button
      (a shown default or a custom button) carries it, and the button found
      there is the last candidate with that index. */
  lemma {:induction false} MergedLastWins(footer: seq<FieldNavButton>, field: FieldInterface)
    ensures var c := Candidates(footer, field);
      var m := MergedButtons(footer, field);
      && (forall i :: 0 <= i < |m| ==> LastIndexOf(c, m[i].index) >= 0 && m[i] == c[LastIndexOf(c, m[i].index)])
      && (forall j :: 0 <= j < |c| ==> exists i :: 0 <= i < |m| && m[i].index == c[j].index)
  {
    var c := Candidates(footer, field);
    var t := IndexTable(c);
    TableKeysAreIndices(c);
    IndexTableSpec(c);
    var ks := SortedIndices(c);
    SortedIndicesSpec(c);
    var m := MergedButtons(footer, field);
    assert |m| == |ks|;
    forall i | 0 <= i < |m|
      ensures LastIndexOf(c, m[i].index) >= 0 && m[i] == c[LastIndexOf(c, m[i].index)]
    {
      assert ks[i] in ks;
      assert m[i] == t[ks[i]];
      assert m[i].index == ks[i];
    }
    forall j | 0 <= j < |c|
      ensures exists i :: 0 <= i < |m| && m[i].index == c[j].index
    {
      var k := c[j].index;
      assert k in t;
      assert k in ks;
      var i :| 0 <= i < |ks| && ks[i] == k;
      assert m[i] == t[ks[i]];
    }
  }

  /** A default button whose name is hidden never survives: every merged
      button is a custom button or a default whose name is not hidden. */
  lemma {:induction false} MergedDropsHidden(footer: seq<FieldNavButton>, field: FieldInterface)
    ensures forall b :: b in MergedButtons(footer, field) ==>
      b in field.customButtons || (b in footer && b.name !in field.hiddenButtons)
  {
    var c := Candidates(footer, field);
    var m := MergedButtons(footer, field);
    MergedLastWins(footer, field);
    forall b | b in m
      ensures b in field.customButtons || (b in footer && b.name !in field.hiddenButtons)
    {
      var i :| 0 <= i < |m| && m[i] == b;
      var p := LastIndexOf(c, b.index);
      assert b == c[p];
      assert b in c;
      var d := Defaults(footer, field);
      ShownMembers(footer, field.hiddenButtons);
      assert b in d || b in field.customButtons;
    }
  }

  /** Positions in a concatenation. */
  lemma {:induction false} LastIndexOfAppend(a: seq<FieldNavButton>, b: seq<FieldNavButton>, k: int)
    ensures LastIndexOf(b, k) >= 0 ==> LastIndexOf(a + b, k) == |a| + LastIndexOf(b, k)
    ensures LastIndexOf(b, k) < 0 ==> LastIndexOf(a + b, k) == LastIndexOf(a, k)
    decreases |b|
  {
    if b == [] {
      assert a + b == a;
    } else {
      var ab := a + b;
      assert ab[..|ab| - 1] == a + b[..|b| - 1];
      LastIndexOfAppend(a, b[..|b| - 1], k);
    }
  }

  /** A custom button replaces the default with the same index: the button
      merged at a custom button's index is the last custom button with that
      index. */
  lemma {:induction false} CustomReplacesDefault(footer: seq<FieldNavButton>, field: FieldInterface, j: nat)
    requires j < |field.customButtons|
    ensures var m := MergedButtons(footer, field);
      var k := field.customButtons[j].index;
      && LastIndexOf(field.customButtons, k) >= 0
      && exists i :: 0 <= i < |m| && m[i].index == k && m[i] == field.customButtons[LastIndexOf(field.customButtons, k)]
  {
    var c := Candidates(footer, field);
    var m := MergedButtons(footer, field);
    var cs := field.customButtons;
    var k := cs[j].index;
    var d := Defaults(footer, field);
    assert c == d + cs;
    assert c[|d| + j] == cs[j];
    MergedLastWins(footer, field);
    var i :| 0 <= i < |m| && m[i].index == c[|d| + j].index;
    LastIndexOfAppend(d, cs, k);
    var p := LastIndexOf(cs, k);
    LastIndexOfSpec(cs, k);
    assert p >= 0;
    assert LastIndexOf(c, k) == |d| + p;
    assert m[i] == c[|d| + p] == cs[p];
  }

  /** The initial resolved buttons: one per merged button definition, in
      strictly ascending index order, each with colour 'primary' whatever the
      definition declares, enabled, visible, slot/size/cssClass taken from the
      definition or else 'start'/'large'/'', and a reference to the
      definition. */
  lemma {:induction false} NavButtonPropsShape(footer: seq<FieldNavButton>, field: FieldInterface)
    ensures var m := MergedButtons(footer, field);
      var ps := NavButtonProps(footer, field);
      && |ps| == |m|
      && (forall i, j :: 0 <= i < j < |ps| ==> ps[i].index < ps[j].index)
      && (forall i :: 0 <= i < |ps| ==>
            && ps[i].btnRef == m[i]
            && ps[i].name == m[i].name && ps[i].index == m[i].index
            && ps[i].color == Str("primary")
            && ps[i].disabled == Bool(false) && ps[i].visible == Bool(true)
            && ps[i].slot == OrDefault(m[i].slot, "start")
            && ps[i].size == OrDefault(m[i].size, "large")
            && ps[i].cssClass == OrDefault(m[i].cssClass, ""))
  {
    MergedStrictlyAscending(footer, field);
  }
}
