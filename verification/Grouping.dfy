/** Grouping a stream of rows by a key, one map entry per group, states updated in place. */
module Grouping {
  import opened Values

  type Tuple = seq<ColumnValue>

  /** A way to group: the key and the name of a group tuple, the first state, and a row's step. */
  datatype Grouper<K(==), L, !S> = Grouper(tuple: Tuple -> Tuple, key: Tuple -> K, name: Tuple -> L, init: S, step: (S, Tuple) -> S)

  /** One matched row: update its group's state, or insert the group. */
  function GroupStep<K, L, S>(gr: Grouper<K, L, S>, row: Tuple, groups: map<K, (L, S)>): map<K, (L, S)> {
    var g := gr.tuple(row);
    var k := gr.key(g);
    if k in groups then groups[k := (groups[k].0, gr.step(groups[k].1, row))]
    else groups[k := (gr.name(g), gr.step(gr.init, row))]
  }

  function GroupRows<K, L, S>(gr: Grouper<K, L, S>, rows: seq<Tuple>, groups: map<K, (L, S)>): map<K, (L, S)> {
    if rows == [] then groups else GroupRows(gr, rows[1..], GroupStep(gr, rows[0], groups))
  }

  // ---------------------------------------------------------------------------------------------
  // What the map is: one entry for each distinct group tuple, folded over the group's own rows.

  function Tuples(tuple: Tuple -> Tuple, rows: seq<Tuple>): (r: set<Tuple>)
    ensures forall i {:trigger rows[i]} :: 0 <= i < |rows| ==> tuple(rows[i]) in r
    ensures forall g :: g in r ==> exists i :: 0 <= i < |rows| && tuple(rows[i]) == g
  {
    set i | 0 <= i < |rows| :: tuple(rows[i])
  }

  /** The rows of group `g`, in order. */
  function Members(tuple: Tuple -> Tuple, rows: seq<Tuple>, g: Tuple): (r: seq<Tuple>)
    ensures forall x {:trigger x in r} :: x in r <==> x in rows && tuple(x) == g
  {
    if rows == [] then []
    else
      var last, before := rows[|rows| - 1], Members(tuple, rows[..|rows| - 1], g);
      if tuple(last) == g then before + [last] else before
  }

  function FoldRows<K, L, S>(gr: Grouper<K, L, S>, rows: seq<Tuple>): S {
    if rows == [] then gr.init else gr.step(FoldRows(gr, rows[..|rows| - 1]), rows[|rows| - 1])
  }

  ghost predicate KeysFaithful<K, L, S>(gr: Grouper<K, L, S>, rows: seq<Tuple>) {
    forall g, h {:trigger gr.key(g), gr.key(h)} :: g in Tuples(gr.tuple, rows) && h in Tuples(gr.tuple, rows) && gr.key(g) == gr.key(h) ==> g == h
  }

  ghost predicate Describes<K, L, S>(gr: Grouper<K, L, S>, rows: seq<Tuple>, groups: map<K, (L, S)>) {
    && (forall g {:trigger gr.key(g)} :: g in Tuples(gr.tuple, rows) ==>
        gr.key(g) in groups && groups[gr.key(g)] == (gr.name(g), FoldRows(gr, Members(gr.tuple, rows, g))))
    && (forall k :: k in groups ==> exists g {:trigger gr.key(g)} :: g in Tuples(gr.tuple, rows) && gr.key(g) == k)
  }

  lemma MembersAppend(tuple: Tuple -> Tuple, rows: seq<Tuple>, row: Tuple, g: Tuple)
    ensures Members(tuple, rows + [row], g) == if tuple(row) == g then Members(tuple, rows, g) + [row] else Members(tuple, rows, g)
  {
    assert (rows + [row])[..|rows|] == rows;
  }

  lemma NoMembers(tuple: Tuple -> Tuple, rows: seq<Tuple>, g: Tuple)
    requires g !in Tuples(tuple, rows)
    ensures Members(tuple, rows, g) == []
  {
    assert forall x :: x !in Members(tuple, rows, g);
  }

  lemma TuplesAppend(tuple: Tuple -> Tuple, rows: seq<Tuple>, row: Tuple)
    ensures Tuples(tuple, rows + [row]) == Tuples(tuple, rows) + {tuple(row)}
  {
    var all := rows + [row];
    forall g | g in Tuples(tuple, rows) ensures g in Tuples(tuple, all) {
      var i :| 0 <= i < |rows| && tuple(rows[i]) == g;
      assert all[i] == rows[i];
    }
    assert all[|rows|] == row;
  }

  lemma GroupStepDescribes<K, L, S>(gr: Grouper<K, L, S>, seen: seq<Tuple>, row: Tuple, groups: map<K, (L, S)>)
    requires KeysFaithful(gr, seen + [row]) && Describes(gr, seen, groups)
    ensures Describes(gr, seen + [row], GroupStep(gr, row, groups))
  {
    hide Members, FoldRows, Tuples;
    var g, k := gr.tuple(row), gr.key(gr.tuple(row));
    var after := GroupStep(gr, row, groups);
    TuplesAppend(gr.tuple, seen, row);
    var here := Members(gr.tuple, seen, g);
    assert FoldRows(gr, here + [row]) == gr.step(FoldRows(gr, here), row) && FoldRows(gr, []) == gr.init by { FoldAppend(gr, here, row); }
    if g !in Tuples(gr.tuple, seen) {
      NoMembers(gr.tuple, seen, g);
      assert k !in groups;
    }
    forall h | h in Tuples(gr.tuple, seen + [row])
      ensures gr.key(h) in after && after[gr.key(h)] == (gr.name(h), FoldRows(gr, Members(gr.tuple, seen + [row], h)))
    {
      MembersAppend(gr.tuple, seen, row, h);
    }
  }

  lemma FoldAppend<K, L, S>(gr: Grouper<K, L, S>, rows: seq<Tuple>, row: Tuple)
    ensures FoldRows(gr, rows + [row]) == gr.step(FoldRows(gr, rows), row) && FoldRows(gr, []) == gr.init
  {
    assert (rows + [row])[..|rows|] == rows;
  }

  lemma {:induction false} GroupRowsFrom<K, L, S>(gr: Grouper<K, L, S>, seen: seq<Tuple>, rows: seq<Tuple>, groups: map<K, (L, S)>)
    requires KeysFaithful(gr, seen + rows) && Describes(gr, seen, groups)
    ensures Describes(gr, seen + rows, GroupRows(gr, rows, groups))
    decreases |rows|
  {
    hide Describes;
    if rows == [] {
      assert seen + rows == seen;
    } else {
      assert seen + rows == seen + [rows[0]] + rows[1..];
      FaithfulPart(gr, seen + [rows[0]], rows[1..]);
      GroupStepDescribes(gr, seen, rows[0], groups);
      GroupRowsFrom(gr, seen + [rows[0]], rows[1..], GroupStep(gr, rows[0], groups));
    }
  }

  lemma FaithfulPart<K, L, S>(gr: Grouper<K, L, S>, part: seq<Tuple>, rest: seq<Tuple>)
    requires KeysFaithful(gr, part + rest)
    ensures KeysFaithful(gr, part)
  {
    forall g | g in Tuples(gr.tuple, part) ensures g in Tuples(gr.tuple, part + rest) {
      var i :| 0 <= i < |part| && gr.tuple(part[i]) == g;
      assert (part + rest)[i] == part[i];
    }
  }

  /** With faithful keys, grouping builds one entry per distinct tuple, each folded over the tuple's rows alone. */
  lemma GroupRowsExact<K, L, S>(gr: Grouper<K, L, S>, rows: seq<Tuple>)
    requires KeysFaithful(gr, rows)
    ensures Describes(gr, rows, GroupRows(gr, rows, map[]))
  {
    assert [] + rows == rows;
    GroupRowsFrom(gr, [], rows, map[]);
  }

  /** One entry per distinct tuple: as many entries as tuples. */
  lemma GroupCount<K, L, S>(gr: Grouper<K, L, S>, rows: seq<Tuple>, groups: map<K, (L, S)>)
    requires KeysFaithful(gr, rows) && Describes(gr, rows, groups)
    ensures |groups| == |Tuples(gr.tuple, rows)|
  {
    var tuples := Tuples(gr.tuple, rows);
    var keys := set g {:trigger gr.key(g)} | g in tuples :: gr.key(g);
    assert groups.Keys == keys;
    SameSize(gr, tuples, keys);
  }

  lemma {:induction false} SameSize<K, L, S>(gr: Grouper<K, L, S>, tuples: set<Tuple>, keys: set<K>)
    requires forall g, h {:trigger gr.key(g), gr.key(h)} :: g in tuples && h in tuples && gr.key(g) == gr.key(h) ==> g == h
    requires keys == set g {:trigger gr.key(g)} | g in tuples :: gr.key(g)
    ensures |keys| == |tuples|
    decreases |tuples|
  {
    if tuples != {} {
      var g :| g in tuples;
      var fewer := keys - {gr.key(g)};
      assert fewer == set h {:trigger gr.key(h)} | h in tuples - {g} :: gr.key(h);
      SameSize(gr, tuples - {g}, fewer);
    } else {
      assert keys == {};
    }
  }

  /** The groups' sizes add up to the number of rows. */
  function SizeSum(tuple: Tuple -> Tuple, rows: seq<Tuple>, groups: seq<Tuple>): nat {
    if groups == [] then 0 else |Members(tuple, rows, groups[0])| + SizeSum(tuple, rows, groups[1..])
  }

  lemma {:induction false} SizesAppend(tuple: Tuple -> Tuple, rows: seq<Tuple>, row: Tuple, groups: seq<Tuple>)
    requires forall i, j :: 0 <= i < j < |groups| ==> groups[i] != groups[j]
    ensures SizeSum(tuple, rows + [row], groups) == SizeSum(tuple, rows, groups) + if tuple(row) in groups then 1 else 0
    decreases |groups|
  {
    hide Members;
    if groups != [] {
      MembersAppend(tuple, rows, row, groups[0]);
      SizesAppend(tuple, rows, row, groups[1..]);
    }
  }

  lemma {:induction false} SizesAddUp(tuple: Tuple -> Tuple, rows: seq<Tuple>, groups: seq<Tuple>)
    requires forall i, j :: 0 <= i < j < |groups| ==> groups[i] != groups[j]
    requires forall g :: g in Tuples(tuple, rows) ==> g in groups
    ensures SizeSum(tuple, rows, groups) == |rows|
    decreases |rows|
  {
    hide Members;
    if rows == [] {
      NoRowsNoSizes(tuple, groups);
    } else {
      var k := |rows| - 1;
      assert rows == rows[..k] + [rows[k]];
      TuplesAppend(tuple, rows[..k], rows[k]);
      SizesAddUp(tuple, rows[..k], groups);
      SizesAppend(tuple, rows[..k], rows[k], groups);
    }
  }

  lemma {:induction false} NoRowsNoSizes(tuple: Tuple -> Tuple, groups: seq<Tuple>)
    ensures SizeSum(tuple, [], groups) == 0
  {
    if groups != [] {
      NoRowsNoSizes(tuple, groups[1..]);
    }
  }
}
