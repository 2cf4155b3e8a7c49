/** The add-provider form: its grouped rows, the selection over them, and default names. */
module AddProvider {
  import Decimal
  import opened Scroll

  datatype Registry = Registry(id: string, providers: seq<string>)

  datatype SelectRow = Header(registry: string) | Provider(registry: string, index: nat) | Custom {
    /** Group headers cannot be selected. */
    predicate Selectable() {
      !Header?
    }
  }

  // Default names ----------------------------------------------------------------------------

  /** The i-th name tried for a base: the base itself, then numbered ones. */
  function Candidate(base: string, i: nat): string {
    if i == 0 then base else base + " " + Decimal.Show(i)
  }

  lemma CandidateInjective(base: string, i: nat, j: nat)
    requires Candidate(base, i) == Candidate(base, j)
    ensures i == j
  {
    var prefix := base + " ";
    if i > 0 && j > 0 {
      assert (prefix + Decimal.Show(i))[|prefix|..] == Decimal.Show(i);
      assert (prefix + Decimal.Show(j))[|prefix|..] == Decimal.Show(j);
      Decimal.ShowInjective(i, j);
    } else {
      assert i > 0 ==> |Candidate(base, i)| > |base|;
      assert j > 0 ==> |Candidate(base, j)| > |base|;
    }
  }

  function Elements(names: seq<string>): set<string> {
    set n | n in names
  }

  lemma {:induction false} ElementsSize(names: seq<string>)
    ensures |Elements(names)| <= |names|
  {
    if names != [] {
      ElementsSize(names[1..]);
      assert Elements(names) == {names[0]} + Elements(names[1..]);
    }
  }

  function Candidates(base: string, n: nat): set<string> {
    set i | 0 <= i < n :: Candidate(base, i)
  }

  lemma {:induction false} CandidatesSize(base: string, n: nat)
    ensures |Candidates(base, n)| == n
  {
    if n > 0 {
      CandidatesSize(base, n - 1);
      NextCandidateNew(base, n - 1);
      assert Candidates(base, n) == Candidates(base, n - 1) + {Candidate(base, n - 1)};
    }
  }

  lemma NextCandidateNew(base: string, n: nat)
    ensures Candidate(base, n) !in Candidates(base, n)
  {
    forall i | 0 <= i < n ensures Candidate(base, i) != Candidate(base, n) {
      if Candidate(base, i) == Candidate(base, n) {
        CandidateInjective(base, i, n);
      }
    }
  }

  lemma SubsetSize(a: set<string>, b: set<string>)
    requires a <= b
    ensures |a| <= |b|
  {
    assert b == a + (b - a);
  }

  /** There are no more taken candidates than names. */
  lemma Pigeonhole(base: string, names: seq<string>, n: nat)
    requires forall i :: 0 <= i < n ==> Candidate(base, i) in names
    ensures n <= |names|
  {
    CandidatesSize(base, n);
    ElementsSize(names);
    SubsetSize(Candidates(base, n), Elements(names));
  }

  // The select stage ---------------------------------------------------------------------------

  /** The rows of the first n groups: a header and its matching providers in filtered
      order; while searching, a group without a match shows nothing at all. */
  function GroupRows(registries: seq<Registry>, matched: seq<seq<nat>>, filtering: bool, n: nat): seq<SelectRow>
    requires |matched| == |registries| && n <= |registries|
  {
    if n == 0 then []
    else GroupRows(registries, matched, filtering, n - 1) + OneGroup(registries[n - 1].id, matched[n - 1], filtering)
  }

  function OneGroup(registry: string, matched: seq<nat>, filtering: bool): seq<SelectRow> {
    if filtering && matched == [] then []
    else [Header(registry)] + seq(|matched|, i requires 0 <= i < |matched| => Provider(registry, matched[i]))
  }

  /** How many rows the first n groups take. */
  function GroupsSize(matched: seq<seq<nat>>, filtering: bool, n: nat): nat
    requires n <= |matched|
  {
    if n == 0 then 0 else GroupsSize(matched, filtering, n - 1) + GroupSize(matched[n - 1], filtering)
  }

  function GroupSize(matched: seq<nat>, filtering: bool): nat {
    if filtering && matched == [] then 0 else 1 + |matched|
  }

  lemma {:induction false} GroupsCount(registries: seq<Registry>, matched: seq<seq<nat>>, filtering: bool, n: nat)
    requires |matched| == |registries| && n <= |registries|
    ensures |GroupRows(registries, matched, filtering, n)| == GroupsSize(matched, filtering, n)
  {
    if n > 0 {
      GroupsCount(registries, matched, filtering, n - 1);
      OneGroupCount(registries[n - 1].id, matched[n - 1], filtering);
      var before, group := GroupRows(registries, matched, filtering, n - 1),
                           OneGroup(registries[n - 1].id, matched[n - 1], filtering);
      assert GroupRows(registries, matched, filtering, n) == before + group;
    }
  }

  lemma OneGroupCount(registry: string, matched: seq<nat>, filtering: bool)
    ensures |OneGroup(registry, matched, filtering)| == GroupSize(matched, filtering)
  {}

  lemma {:induction false} GroupsPrefix(
    registries: seq<Registry>, matched: seq<seq<nat>>, filtering: bool, r: nat, n: nat)
    requires |matched| == |registries| && r <= n <= |registries|
    ensures GroupRows(registries, matched, filtering, r) <= GroupRows(registries, matched, filtering, n)
    decreases n
  {
    if r < n {
      GroupsPrefix(registries, matched, filtering, r, n - 1);
    }
  }

  /** The rows a group takes from row `at` on: its header, and below that the j-th row is the j-th
      match. */
  predicate Shown(rows: seq<SelectRow>, at: nat, registry: string, matched: seq<nat>) {
    && at + |matched| < |rows| && rows[at] == Header(registry)
    && forall j :: 0 <= j < |matched| ==> rows[at + 1 + j] == Provider(registry, matched[j])
  }

  lemma OneGroupShown(registry: string, matched: seq<nat>, filtering: bool)
    requires !filtering || matched != []
    ensures Shown(OneGroup(registry, matched, filtering), 0, registry, matched)
  {}

  /** Group r begins where the groups before it end; it shows nothing exactly when it has no match
      while a filter is on. */
  lemma GroupAt(registries: seq<Registry>, matched: seq<seq<nat>>, filtering: bool, n: nat, r: nat)
    requires |matched| == |registries| && r < n <= |registries|
    ensures var rows := GroupRows(registries, matched, filtering, n);
      && |rows| == GroupsSize(matched, filtering, n)
      && (!filtering || matched[r] != [] ==>
            Shown(rows, GroupsSize(matched, filtering, r), registries[r].id, matched[r]))
  {
    GroupsCount(registries, matched, filtering, n);
    if !filtering || matched[r] != [] {
      GroupsCount(registries, matched, filtering, r);
      GroupsPrefix(registries, matched, filtering, r + 1, n);
      OneGroupShown(registries[r].id, matched[r], filtering);
      var before, all := GroupRows(registries, matched, filtering, r), GroupRows(registries, matched, filtering, n);
      ShownIn(before, OneGroup(registries[r].id, matched[r], filtering), registries[r].id, matched[r], all);
    }
  }

  lemma ShownIn(
    before: seq<SelectRow>, group: seq<SelectRow>, registry: string, matched: seq<nat>, rows: seq<SelectRow>)
    requires Shown(group, 0, registry, matched) && before + group <= rows
    ensures Shown(rows, |before|, registry, matched)
  {
    var at := |before|;
    forall k | 0 <= k < |group| ensures rows[at + k] == group[k] {
      assert (before + group)[at + k] == group[k];
    }
    forall j | 0 <= j < |matched| ensures rows[at + 1 + j] == Provider(registry, matched[j]) {
      assert rows[at + (1 + j)] == group[1 + j] == group[0 + 1 + j];
    }
    assert rows[at + 0] == group[0];
  }

  class Form {
    var registries: seq<Registry>
    var rows: seq<SelectRow>
    var selected: nat
    var offset: nat
    var viewportHeight: nat
    var existingNames: seq<string>

    /** The custom row comes last, and the selected row is a row and no header. */
    ghost predicate Valid()
      reads this
    {
      && rows != [] && rows[|rows| - 1] == Custom
      && selected < |rows| && rows[selected].Selectable()
      && (viewportHeight > 0 ==> Scroll.Shows(offset, selected, selected + 1, viewportHeight))
    }

    /** `rebuild_rows`; the filter's answer for each registry is an argument. */
    method RebuildRows(matched: seq<seq<nat>>, filtering: bool)
      requires |matched| == |registries|
      modifies this`rows, this`selected, this`offset
      ensures Valid()
      ensures rows == GroupRows(registries, matched, filtering, |registries|) + [Custom]
      ensures forall i :: 0 <= i < selected ==> !rows[i].Selectable()
    {
      var built: seq<SelectRow> := [];
      for r := 0 to |registries|
        invariant built == GroupRows(registries, matched, filtering, r)
      {
        var indices, id := matched[r], registries[r].id;
        ghost var before := built;
        if filtering && indices == [] {
          assert before + OneGroup(id, indices, filtering) == before;
          continue;
        }
        built := built + [Header(id)];
        built := built + seq(|indices|, i requires 0 <= i < |indices| => Provider(id, indices[i]));
        assert built == before + OneGroup(id, indices, filtering);
      }
      rows := built + [Custom];
      selected := FirstSelectable(rows);
      offset := 0;
      RecomputeOffset();
    }

    method RecomputeOffset()
      requires selected < |rows|
      modifies this`offset
      ensures offset == OffsetFor(selected, old(offset), viewportHeight, |rows|)
      ensures viewportHeight > 0 ==> Scroll.Shows(offset, selected, selected + 1, viewportHeight)
    {
      offset := OffsetFor(selected, offset, viewportHeight, |rows|);
      if viewportHeight > 0 {
        OffsetShowsSelected(selected, old(offset), viewportHeight, |rows|);
      }
    }

    /** Step the selection down to the nearest selectable row, if there is one. */
    method Next()
      requires Valid()
      modifies this`selected, this`offset
      ensures Valid()
      ensures forall i :: old(selected) < i < selected ==> !rows[i].Selectable()
      ensures if old(selected) == |rows| - 1 then selected == old(selected) else selected > old(selected)
    {
      MoveSelection(1);
    }

    /** Step the selection up to the nearest selectable row, if there is one. */
    method Prev()
      requires Valid()
      modifies this`selected, this`offset
      ensures Valid()
      ensures forall i :: selected < i < old(selected) ==> !rows[i].Selectable()
      ensures if exists i :: 0 <= i < old(selected) && rows[i].Selectable()
        then selected < old(selected) else selected == old(selected)
    {
      MoveSelection(-1);
    }

    /** `move_selection`. */
    method MoveSelection(dir: int)
      requires Valid() && (dir == 1 || dir == -1)
      modifies this`selected, this`offset
      ensures Valid()
      ensures dir == 1 ==>
        && (forall i :: old(selected) < i < selected ==> !rows[i].Selectable())
        && (if old(selected) == |rows| - 1 then selected == old(selected) else selected > old(selected))
      ensures dir == -1 ==>
        && (forall i :: selected < i < old(selected) ==> !rows[i].Selectable())
        && (if exists i :: 0 <= i < old(selected) && rows[i].Selectable()
            then selected < old(selected) else selected == old(selected))
    {
      var len: int := |rows|;
      var next: int := selected + dir;
      while next >= 0 && next < len && !rows[next].Selectable()
        invariant -1 <= next <= len
        invariant dir == 1 ==> selected < next && (next == len ==> selected == len - 1)
        invariant dir == -1 ==> next < selected
        invariant forall i :: selected < i < next ==> !rows[i].Selectable()
        invariant forall i :: next < i < selected ==> !rows[i].Selectable()
        decreases if dir == 1 then len - next else next + 1
      {
        next := next + dir;
      }
      if next < 0 {
        return;
      }
      selected := if next <= len - 1 then next else len - 1;
      RecomputeOffset();
    }

    /** The loop stops: the name is free, it is the first free candidate, and its number is
        no larger than the number of names there are. */
    method ComputeDefaultName(base: string) returns (name: string, ghost i: nat)
      ensures name == Candidate(base, i) && name !in existingNames
      ensures forall k :: 0 <= k < i ==> Candidate(base, k) in existingNames
      ensures i <= |existingNames|
      ensures name == if i == 0 then base else base + " " + Decimal.Show(i)
    {
      if base !in existingNames {
        return base, 0;
      }
      var n := 1;
      while true
        invariant n >= 1 && forall k :: 0 <= k < n ==> Candidate(base, k) in existingNames
        decreases |existingNames| - n
      {
        Pigeonhole(base, existingNames, n);
        name := base + " " + Decimal.Show(n);
        if name !in existingNames {
          return name, n;
        }
        n := n + 1;
        assert Candidate(base, n - 1) in existingNames;
        Pigeonhole(base, existingNames, n);
      }
    }
  }

  /** `first_selectable`. */
  function FirstSelectable(rows: seq<SelectRow>, from: nat := 0): (i: nat)
    requires from < |rows| && rows[|rows| - 1] == Custom
    ensures from <= i < |rows| && rows[i].Selectable()
    ensures forall k :: from <= k < i ==> !rows[k].Selectable()
    decreases |rows| - from
  {
    if rows[from].Selectable() then from else FirstSelectable(rows, from + 1)
  }
}
