/** Choosing the principal components in `pca`: the eigenvalues are copied and
    sorted in descending order, and for each of the first `n_components`
    sorted values the position `list_v.index(value)` of its first occurrence
    among the eigenvalues picks the eigenvector column of U. The eigenvalues
    and eigenvectors are inputs here (they come from `np.linalg.eig`). */
module Selection {

  import opened Errors

  predicate NonIncreasing(s: seq<real>) {
    forall p, q :: 0 <= p < q < |s| ==> s[p] >= s[q]
  }

  // ---------------------------------------------------------------------------
  // The library operations the selection relies on

  /** Inserts x before the first entry x is at least as large as. */
  function InsertDescending(x: real, s: seq<real>): (r: seq<real>)
    ensures |r| == |s| + 1
    ensures multiset(r) == multiset(s) + multiset{x}
  {
    if s == [] then [x]
    else if x >= s[0] then [x] + s
    else
      assert s == [s[0]] + s[1..];
      [s[0]] + InsertDescending(x, s[1..])
  }

  /** Inserting into a non-increasing list keeps it non-increasing. */
  lemma {:induction false} InsertKeepsNonIncreasing(x: real, s: seq<real>)
    requires NonIncreasing(s)
    ensures NonIncreasing(InsertDescending(x, s))
  {
    if s != [] {
      if x >= s[0] {
        InsertAtHead(x, s);
      } else {
        TailNonIncreasing(s);
        InsertKeepsNonIncreasing(x, s[1..]);
        InsertBelowHead(x, s);
      }
    }
  }

  lemma {:induction false} InsertAtHead(x: real, s: seq<real>)
    requires NonIncreasing(s) && s != [] && x >= s[0]
    ensures NonIncreasing(InsertDescending(x, s))
  {
    assert s == [s[0]] + s[1..];
    assert InsertDescending(x, s) == [x] + s;
    KeepsNonIncreasing(x, s[0], s[1..], s[1..]);
  }

  lemma {:induction false} InsertBelowHead(x: real, s: seq<real>)
    requires NonIncreasing(s) && s != [] && x < s[0]
    requires NonIncreasing(InsertDescending(x, s[1..]))
    ensures NonIncreasing(InsertDescending(x, s))
  {
    var h, t := s[0], s[1..];
    var rest := InsertDescending(x, t);
    assert s == [h] + t;
    assert InsertDescending(x, s) == [h] + rest;
    assert multiset(rest) == multiset(t) + multiset{x};
    KeepsNonIncreasing(h, h, t, rest);
  }

  /** A head at least as large as h on top of a non-increasing t' whose entries
      are those of t and possibly one more value below h stays non-increasing,
      when h heads the non-increasing list [h] + t. */
  lemma {:induction false} KeepsNonIncreasing(y: real, h: real, t: seq<real>, t': seq<real>)
    requires NonIncreasing([h] + t) && NonIncreasing(t') && y >= h
    requires forall v :: v in multiset(t') ==> v in multiset(t) || v <= h
    ensures NonIncreasing([y] + t')
  {
    var r := [y] + t';
    forall q | 0 <= q < |t'| ensures h >= t'[q] {
      assert t'[q] in multiset(t');
      if t'[q] in t {
        var m :| 0 <= m < |t| && t[m] == t'[q];
        assert ([h] + t)[0] == h && ([h] + t)[m + 1] == t[m];
      }
    }
    forall p, q | 0 <= p < q < |r| ensures r[p] >= r[q] {
      assert r[q] == t'[q - 1];
      if p > 0 {
        assert r[p] == t'[p - 1];
      }
    }
  }

  /** `list.sort(reverse=True)` on reals: the same values, non-increasing. */
  function SortDescending(s: seq<real>): (r: seq<real>)
    ensures |r| == |s|
    ensures NonIncreasing(r)
    ensures multiset(r) == multiset(s)
  {
    if s == [] then []
    else
      assert s == [s[0]] + s[1..];
      var rest := SortDescending(s[1..]);
      InsertKeepsNonIncreasing(s[0], rest);
      InsertDescending(s[0], rest)
  }

  lemma {:induction false} TailNonIncreasing(s: seq<real>)
    requires NonIncreasing(s) && s != []
    ensures NonIncreasing(s[1..])
  {
  }

  /** `list.index(x)`: the first position holding x; Python raises ValueError
      when x is absent, here None. */
  function IndexOf<T(==)>(s: seq<T>, x: T): (r: Option<nat>)
    ensures r.Some? <==> x in s
    ensures r.Some? ==> r.value < |s| && s[r.value] == x && forall k :: 0 <= k < r.value ==> s[k] != x
  {
    if s == [] then None
    else if s[0] == x then Some(0)
    else match IndexOf(s[1..], x)
      case None => None
      case Some(k) => Some(k + 1)
  }

  // ---------------------------------------------------------------------------
  // The selection loop as written

  /** The chosen eigenvalue positions and the eigenvectors appended to `PC`. */
  datatype Choice = Choice(locs: seq<nat>, pc: seq<seq<real>>)

  /** Positions found by `index` for the sorted eigenvalues hold those
      eigenvalues, so they are visited in non-increasing eigenvalue order. */
  lemma {:induction false} FoundPositionsDescend(V: seq<real>, locs: seq<nat>)
    requires |locs| <= |V|
    requires forall i :: 0 <= i < |locs| ==> IndexOf(V, SortDescending(V)[i]) == Some(locs[i])
    ensures forall i :: 0 <= i < |locs| ==> locs[i] < |V| && V[locs[i]] == SortDescending(V)[i]
    ensures forall i, k :: 0 <= i < k < |locs| ==> V[locs[i]] >= V[locs[k]]
  {
    var sorted := SortDescending(V);
    assert NonIncreasing(sorted);
    forall i, k | 0 <= i < k < |locs| ensures V[locs[i]] >= V[locs[k]] {
      assert V[locs[i]] == sorted[i] && V[locs[k]] == sorted[k];
    }
  }

  /** The loop filling `PC`: pick i is the first position in listV of
      sortedV[i], and `PC[i]` is the eigenvector column there. Running past
      the end of sortedV raises IndexError. */
  method PickComponents(listV: seq<real>, sortedV: seq<real>, U: seq<seq<real>>, n: int)
    returns (r: Result<Choice>)
    requires |sortedV| == |listV| && forall x :: x in sortedV ==> x in listV
    requires forall row :: row in U ==> |row| == |listV|
    ensures r.Err? <==> n > |sortedV|
    ensures r.Err? ==> r.error == IndexError
    ensures r.Ok? ==>
      && |r.value.locs| == (if n < 0 then 0 else n) == |r.value.pc|
      && forall i :: 0 <= i < |r.value.locs| ==>
        && IndexOf(listV, sortedV[i]) == Some(r.value.locs[i])
        && r.value.locs[i] < |listV|
        && |r.value.pc[i]| == |U|
        && forall row :: 0 <= row < |U| ==> r.value.pc[i][row] == U[row][r.value.locs[i]]
  {
    var locs: seq<nat> := [];
    var pc: seq<seq<real>> := [];
    var i := 0;
    while i < n
      invariant 0 <= i && (0 <= n ==> i <= n) && (n < 0 ==> i == 0)
      invariant i <= |sortedV|
      invariant |locs| == i && |pc| == i
      invariant forall k :: 0 <= k < i ==> IndexOf(listV, sortedV[k]) == Some(locs[k]) && locs[k] < |listV|
      invariant forall k :: 0 <= k < i ==>
        |pc[k]| == |U| && forall row :: 0 <= row < |U| ==> pc[k][row] == U[row][locs[k]]
    {
      if i >= |sortedV| {
        // sorted_v[i] is past the end of `sorted_v`
        return Err(IndexError);
      }
      var loc := IndexOf(listV, sortedV[i]).value;
      locs := locs + [loc];
      // list(U[:, loc])
      var column := seq(|U|, row requires 0 <= row < |U| => U[row][loc]);
      pc := pc + [column];
      i := i + 1;
    }
    r := Ok(Choice(locs, pc));
  }

  /** Every entry of the sorted list is one of the eigenvalues. */
  lemma {:induction false} SortedEntriesAreEigenvalues(V: seq<real>)
    ensures forall x :: x in SortDescending(V) ==> x in V
  {
    forall x | x in SortDescending(V) ensures x in V {
      assert x in multiset(SortDescending(V));
    }
  }

  /** `pca`, from copying the eigenvalues V to filling `PC`, with U the
      eigenvector matrix (column k belongs to V[k]). For n_components <= 0 the
      loop does not run; past the number of eigenvalues `sorted_v[i]` raises
      IndexError. Otherwise pick i is the first position of the i-th largest
      eigenvalue, so the chosen eigenvalues never increase, and `PC[i]` is
      the eigenvector column at that position. */
  method ChooseComponents(V: seq<real>, U: seq<seq<real>>, n: int) returns (r: Result<Choice>)
    requires |U| == |V| && forall row :: row in U ==> |row| == |V|
    ensures r.Err? <==> n > |V|
    ensures r.Err? ==> r.error == IndexError
    ensures r.Ok? ==>
      && |r.value.locs| == (if n < 0 then 0 else n) == |r.value.pc|
      && (forall i :: 0 <= i < |r.value.locs| ==> IndexOf(V, SortDescending(V)[i]) == Some(r.value.locs[i]))
      && (forall i :: 0 <= i < |r.value.locs| ==>
            r.value.locs[i] < |V| && V[r.value.locs[i]] == SortDescending(V)[i])
      && (forall i, k :: 0 <= i < k < |r.value.locs| ==> V[r.value.locs[i]] >= V[r.value.locs[k]])
      && (forall i :: 0 <= i < |r.value.pc| ==>
            && r.value.locs[i] < |V| && |r.value.pc[i]| == |U|
            && forall row :: 0 <= row < |U| ==> r.value.pc[i][row] == U[row][r.value.locs[i]])
  {
    var sortedV: seq<real> := [];
    var i := 0;
    while i < |V|
      invariant 0 <= i <= |V| && sortedV == V[..i]
    {
      sortedV := sortedV + [V[i]];
      i := i + 1;
    }
    assert sortedV == V;
    sortedV := SortDescending(sortedV);
    var listV := V;
    SortedEntriesAreEigenvalues(V);
    r := PickComponents(listV, sortedV, U, n);
    if r.Ok? {
      FoundPositionsDescend(V, r.value.locs);
    }
  }

  /** A position holding the same eigenvalue as an earlier position is
      never chosen: `index` stops at the earlier one. So when an eigenvalue
      occurs several times, only the eigenvector at its first position can
      be picked. */
  lemma {:induction false} LaterEqualPositionNeverChosen(V: seq<real>, q: nat, p: nat, k: nat)
    requires q < p < |V| && V[q] == V[p] && k < |V|
    ensures IndexOf(V, SortDescending(V)[k]) != Some(p)
  {
    if IndexOf(V, SortDescending(V)[k]) == Some(p) {
      assert false;
    }
  }

  /** A concrete instance: with eigenvalues [1.0, 1.0] and n_components = 2
      both picks are position 0, although position 1 holds the other
      eigenvector with that eigenvalue. */
  lemma {:induction false} RepeatedEigenvalueChosenTwice()
    ensures SortDescending([1.0, 1.0]) == [1.0, 1.0]
    ensures IndexOf([1.0, 1.0], SortDescending([1.0, 1.0])[0]) == Some(0)
    ensures IndexOf([1.0, 1.0], SortDescending([1.0, 1.0])[1]) == Some(0)
  {
    var s := SortDescending([1.0, 1.0]);
    assert |s| == 2 && multiset(s) == multiset{1.0, 1.0};
    assert s[0] in multiset(s) && s[1] in multiset(s);
    assert s == [1.0, 1.0];
  }

  // ---------------------------------------------------------------------------
  // The intended selection: each eigenvalue position is used at most once

  /** `list_v` once positions can be struck out: slot k holds Some(V[k])
      until position k has been chosen, then None. */
  function Slots(V: seq<real>): seq<Option<real>> {
    seq(|V|, k requires 0 <= k < |V| => Some(V[k]))
  }

  /** The eigenvalues still present in the slots. */
  function Present(slots: seq<Option<real>>): multiset<real> {
    if slots == [] then multiset{}
    else Present(slots[..|slots| - 1]) + LastValues(slots)
  }

  lemma {:induction false} PresentOfSlots(V: seq<real>)
    ensures Present(Slots(V)) == multiset(V)
  {
    if V != [] {
      var init := V[..|V| - 1];
      assert Slots(V)[..|V| - 1] == Slots(init);
      PresentOfSlots(init);
      assert V == init + [V[|V| - 1]];
    }
  }

  /** A value is present exactly when some slot holds it. */
  lemma {:induction false} PresentMember(slots: seq<Option<real>>, x: real)
    ensures x in Present(slots) <==> Some(x) in slots
  {
    if slots != [] {
      var init := slots[..|slots| - 1];
      PresentMember(init, x);
      assert slots == init + [slots[|slots| - 1]];
    }
  }

  /** Striking out a slot removes its value, once, from the present ones. */
  lemma {:induction false} PresentStrike(slots: seq<Option<real>>, loc: nat)
    requires loc < |slots| && slots[loc].Some?
    ensures slots[loc].value in Present(slots)
    ensures Present(slots[loc := None]) == Present(slots) - multiset{slots[loc].value}
  {
    var n := |slots|;
    if loc == n - 1 {
      PresentStrikeLast(slots);
    } else {
      PresentStrike(slots[..n - 1], loc);
      PresentStrikeEarlier(slots, loc);
    }
  }

  lemma {:induction false} PresentUnfold(slots: seq<Option<real>>)
    requires slots != []
    ensures Present(slots) == Present(slots[..|slots| - 1]) + LastValues(slots)
  {
  }

  function LastValues(slots: seq<Option<real>>): multiset<real>
    requires slots != []
  {
    var last := slots[|slots| - 1];
    if last.Some? then multiset{last.value} else multiset{}
  }

  lemma {:induction false} PresentStrikeLast(slots: seq<Option<real>>)
    requires slots != [] && slots[|slots| - 1].Some?
    ensures slots[|slots| - 1].value in Present(slots)
    ensures Present(slots[|slots| - 1 := None]) == Present(slots) - multiset{slots[|slots| - 1].value}
  {
    var n := |slots|;
    var struck := slots[n - 1 := None];
    assert struck[..n - 1] == slots[..n - 1];
    PresentUnfold(slots);
    PresentUnfold(struck);
    assert LastValues(struck) == multiset{};
    RemoveAdded(Present(slots[..n - 1]), slots[n - 1].value);
  }

  lemma {:induction false} PresentStrikeEarlier(slots: seq<Option<real>>, loc: nat)
    requires loc < |slots| - 1 && slots[loc].Some?
    requires slots[loc].value in Present(slots[..|slots| - 1])
    requires Present(slots[..|slots| - 1][loc := None]) == Present(slots[..|slots| - 1]) - multiset{slots[loc].value}
    ensures slots[loc].value in Present(slots)
    ensures Present(slots[loc := None]) == Present(slots) - multiset{slots[loc].value}
  {
    var n := |slots|;
    var struck := slots[loc := None];
    assert struck[..n - 1] == slots[..n - 1][loc := None];
    PresentUnfold(slots);
    PresentUnfold(struck);
    assert LastValues(struck) == LastValues(slots);
    RemoveBeforeAdding(Present(slots[..n - 1]), LastValues(slots), slots[loc].value);
  }

  lemma {:induction false} RemoveAdded(a: multiset<real>, v: real)
    ensures v in a + multiset{v} && (a + multiset{v}) - multiset{v} == a
  {
  }

  lemma {:induction false} RemoveBeforeAdding(a: multiset<real>, b: multiset<real>, v: real)
    requires v in a
    ensures v in a + b && (a - multiset{v}) + b == (a + b) - multiset{v}
  {
  }

  lemma {:induction false} SuffixMultiset(s: seq<real>, i: nat)
    requires i < |s|
    ensures s[i] in multiset(s[i..])
    ensures multiset(s[i..]) - multiset{s[i]} == multiset(s[i + 1..])
  {
    assert s[i..] == [s[i]] + s[i + 1..];
  }

  /** Slot p is struck out exactly when p has been chosen, and otherwise
      still holds V[p]. */
  predicate SlotsMatch(V: seq<real>, slots: seq<Option<real>>, locs: seq<nat>) {
    |slots| == |V| && forall p :: 0 <= p < |V| ==> slots[p] == if p in locs then None else Some(V[p])
  }

  predicate Distinct(locs: seq<nat>) {
    forall k, l :: 0 <= k < l < |locs| ==> locs[k] != locs[l]
  }

  /** Pick k holds sortedV[k], and every earlier position holding that value
      was chosen before pick k. */
  predicate FirstUnused(V: seq<real>, sortedV: seq<real>, locs: seq<nat>)
    requires |locs| <= |sortedV|
  {
    && (forall k :: 0 <= k < |locs| ==> locs[k] < |V| && V[locs[k]] == sortedV[k])
    && (forall k, p :: 0 <= k < |locs| && 0 <= p < locs[k] && V[p] == sortedV[k] ==> p in locs[..k])
  }

  lemma {:induction false} StrikeKeepsSlotsMatch(V: seq<real>, slots: seq<Option<real>>, locs: seq<nat>, loc: nat)
    requires SlotsMatch(V, slots, locs) && loc < |V|
    ensures SlotsMatch(V, slots[loc := None], locs + [loc])
  {
    forall p | 0 <= p < |V|
      ensures slots[loc := None][p] == if p in locs + [loc] then None else Some(V[p])
    {
      assert p in locs + [loc] <==> p in locs || p == loc;
    }
  }

  /** The slot `index` finds for a value was not chosen yet. */
  lemma {:induction false} FoundSlotIsNew(V: seq<real>, slots: seq<Option<real>>, locs: seq<nat>, x: real, loc: nat)
    requires SlotsMatch(V, slots, locs) && Distinct(locs)
    requires IndexOf(slots, Some(x)) == Some(loc)
    ensures loc < |V| && V[loc] == x && loc !in locs
    ensures Distinct(locs + [loc])
  {
    var r := locs + [loc];
    forall k, l | 0 <= k < l < |r| ensures r[k] != r[l] {
      if l == |locs| {
        assert r[k] == locs[k] && locs[k] in locs;
      } else {
        assert r[k] == locs[k] && r[l] == locs[l];
      }
    }
  }

  lemma {:induction false} FoundSlotIsFirstUnused(V: seq<real>, sortedV: seq<real>, slots: seq<Option<real>>,
                                                  locs: seq<nat>, loc: nat)
    requires |locs| < |sortedV| && SlotsMatch(V, slots, locs) && FirstUnused(V, sortedV, locs)
    requires IndexOf(slots, Some(sortedV[|locs|])) == Some(loc)
    ensures FirstUnused(V, sortedV, locs + [loc])
  {
    var i, r := |locs|, locs + [loc];
    assert r[..i] == locs;
    forall k | 0 <= k < |r| ensures r[k] < |V| && V[r[k]] == sortedV[k] {
      if k < i {
        assert r[k] == locs[k];
      }
    }
    forall k, p | 0 <= k < |r| && 0 <= p < r[k] && V[p] == sortedV[k] ensures p in r[..k] {
      if k < i {
        assert r[k] == locs[k] && r[..k] == locs[..k];
      } else {
        assert slots[p] != Some(sortedV[i]);
      }
    }
  }

  /** What the corrected loop keeps about the slots after its first |locs|
      picks. */
  predicate PickState(V: seq<real>, sortedV: seq<real>, slots: seq<Option<real>>, locs: seq<nat>) {
    && |locs| <= |sortedV|
    && SlotsMatch(V, slots, locs) && Distinct(locs) && FirstUnused(V, sortedV, locs)
    && Present(slots) == multiset(sortedV[|locs|..])
  }

  lemma {:induction false} PickStateInit(V: seq<real>, sortedV: seq<real>)
    requires multiset(sortedV) == multiset(V)
    ensures PickState(V, sortedV, Slots(V), [])
  {
    PresentOfSlots(V);
    assert sortedV[0..] == sortedV;
  }

  /** In the next round the value sortedV[|locs|] is still present, so
      `index` finds a slot holding it. */
  lemma {:induction false} PickStateFinds(V: seq<real>, sortedV: seq<real>, slots: seq<Option<real>>, locs: seq<nat>)
    requires PickState(V, sortedV, slots, locs) && |locs| < |sortedV|
    ensures IndexOf(slots, Some(sortedV[|locs|])).Some?
    ensures IndexOf(slots, Some(sortedV[|locs|])).value < |V|
  {
    SuffixMultiset(sortedV, |locs|);
    PresentMember(slots, sortedV[|locs|]);
  }

  /** Striking out the slot found removes the value just picked. */
  lemma {:induction false} PresentAfterPick(sortedV: seq<real>, slots: seq<Option<real>>, i: nat, loc: nat)
    requires i < |sortedV| && Present(slots) == multiset(sortedV[i..])
    requires loc < |slots| && slots[loc] == Some(sortedV[i])
    ensures Present(slots[loc := None]) == multiset(sortedV[i + 1..])
  {
    SuffixMultiset(sortedV, i);
    PresentStrike(slots, loc);
  }

  /** Striking out the slot found keeps the state. */
  lemma {:induction false} PickStateStep(V: seq<real>, sortedV: seq<real>, slots: seq<Option<real>>,
                                         locs: seq<nat>, loc: nat)
    requires PickState(V, sortedV, slots, locs) && |locs| < |sortedV|
    requires IndexOf(slots, Some(sortedV[|locs|])) == Some(loc)
    ensures loc < |V| && PickState(V, sortedV, slots[loc := None], locs + [loc])
  {
    var i := |locs|;
    FoundSlotIsNew(V, slots, locs, sortedV[i], loc);
    FoundSlotIsFirstUnused(V, sortedV, slots, locs, loc);
    StrikeKeepsSlotsMatch(V, slots, locs, loc);
    PresentAfterPick(sortedV, slots, i, loc);
    assert |locs + [loc]| == i + 1;
  }

  /** The corrected loop filling `PC`: pick i is the first position still
      unused whose slot holds sortedV[i], and that position is then struck
      out. Running past the end of sortedV raises IndexError. */
  method PickDistinctComponents(V: seq<real>, sortedV: seq<real>, U: seq<seq<real>>, n: int)
    returns (r: Result<Choice>)
    requires |sortedV| == |V| && multiset(sortedV) == multiset(V)
    requires forall row :: row in U ==> |row| == |V|
    ensures r.Err? <==> n > |sortedV|
    ensures r.Err? ==> r.error == IndexError
    ensures r.Ok? ==>
      && |r.value.locs| == (if n < 0 then 0 else n) == |r.value.pc|
      && Distinct(r.value.locs)
      && FirstUnused(V, sortedV, r.value.locs)
      && forall i :: 0 <= i < |r.value.pc| ==>
        && r.value.locs[i] < |V| && |r.value.pc[i]| == |U|
        && forall row :: 0 <= row < |U| ==> r.value.pc[i][row] == U[row][r.value.locs[i]]
  {
    var listV := Slots(V);
    PickStateInit(V, sortedV);
    var locs: seq<nat> := [];
    var pc: seq<seq<real>> := [];
    var i := 0;
    while i < n
      invariant 0 <= i && (0 <= n ==> i <= n) && (n < 0 ==> i == 0)
      invariant |locs| == i && |pc| == i
      invariant PickState(V, sortedV, listV, locs)
      invariant forall k :: 0 <= k < i ==>
        && locs[k] < |V| && |pc[k]| == |U|
        && forall row :: 0 <= row < |U| ==> pc[k][row] == U[row][locs[k]]
    {
      if i >= |sortedV| {
        // sorted_v[i] is past the end of `sorted_v`
        return Err(IndexError);
      }
      PickStateFinds(V, sortedV, listV, locs);
      var loc := IndexOf(listV, Some(sortedV[i])).value;
      PickStateStep(V, sortedV, listV, locs, loc);
      listV := listV[loc := None];
      locs := locs + [loc];
      // list(U[:, loc])
      var column := seq(|U|, row requires 0 <= row < |U| => U[row][loc]);
      pc := pc + [column];
      i := i + 1;
    }
    r := Ok(Choice(locs, pc));
  }

  /** The corrected `pca` selection: as ChooseComponents, but each eigenvalue
      position is chosen at most once, equal eigenvalues at their positions
      in increasing order, so that every chosen position holds the eigenvalue
      the sort lists there. */
  method ChooseDistinctComponents(V: seq<real>, U: seq<seq<real>>, n: int) returns (r: Result<Choice>)
    requires |U| == |V| && forall row :: row in U ==> |row| == |V|
    ensures r.Err? <==> n > |V|
    ensures r.Err? ==> r.error == IndexError
    ensures r.Ok? ==>
      && |r.value.locs| == (if n < 0 then 0 else n) == |r.value.pc|
      && (forall i :: 0 <= i < |r.value.locs| ==>
            && r.value.locs[i] < |V| && V[r.value.locs[i]] == SortDescending(V)[i]
            && |r.value.pc[i]| == |U|
            && forall row :: 0 <= row < |U| ==> r.value.pc[i][row] == U[row][r.value.locs[i]])
      && (forall i, k :: 0 <= i < k < |r.value.locs| ==> r.value.locs[i] != r.value.locs[k])
      && (forall i, k :: 0 <= i < k < |r.value.locs| ==> V[r.value.locs[i]] >= V[r.value.locs[k]])
      && (forall i, p :: 0 <= i < |r.value.locs| && 0 <= p < r.value.locs[i] && V[p] == V[r.value.locs[i]] ==>
            p in r.value.locs[..i])
  {
    var sortedV := SortDescending(V);
    r := PickDistinctComponents(V, sortedV, U, n);
    if r.Ok? {
      assert NonIncreasing(sortedV);
    }
  }

  /** Among pairwise distinct eigenvalues, `index` finds each at the one
      position holding it. */
  lemma {:induction false} UniquePosition(V: seq<real>, p: nat)
    requires forall a, b :: 0 <= a < b < |V| ==> V[a] != V[b]
    requires p < |V|
    ensures IndexOf(V, V[p]) == Some(p)
  {
    var q := IndexOf(V, V[p]).value;
    assert q <= p;
    if q < p {
      assert false;
    }
  }

  /** When the eigenvalues are pairwise distinct, each sorted eigenvalue sits
      at one position only, the one `index` returns: the selection as
      written and the corrected one then choose the same positions. */
  lemma {:induction false} DistinctEigenvaluesAgree(V: seq<real>, i: nat, p: nat)
    requires forall a, b :: 0 <= a < b < |V| ==> V[a] != V[b]
    requires i < |V| && p < |V| && V[p] == SortDescending(V)[i]
    ensures IndexOf(V, SortDescending(V)[i]) == Some(p)
  {
    UniquePosition(V, p);
  }
}
