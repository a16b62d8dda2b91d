/** The counting sort that inverts the round function (src/algorithms/crypto/subaru_key_recovery.cpp,
    FunctionInverse), for any function on [0, size). */
module FunctionInverse {

  /** The inputs below `n` that `g` maps to `o`, ascending. */
  function Preimages(g: nat -> nat, o: nat, n: nat): seq<nat> {
    if n == 0 then []
    else if g(n - 1) == o then Preimages(g, o, n - 1) + [n - 1]
    else Preimages(g, o, n - 1)
  }

  /** The list holds each input below `n` that maps to `o` once, in order, and no other number. */
  ghost predicate Exactly(list: seq<nat>, g: nat -> nat, o: nat, n: nat) {
    && (forall i :: 0 <= i < |list| ==> list[i] < n && g(list[i]) == o)
    && (forall i, j :: 0 <= i < j < |list| ==> list[i] < list[j])
    && (forall v: nat :: v < n && g(v) == o ==> v in list)
  }

  lemma {:induction false} PreimagesExact(g: nat -> nat, o: nat, n: nat)
    ensures Exactly(Preimages(g, o, n), g, o, n)
  {
    if n > 0 {
      PreimagesExact(g, o, n - 1);
      var list, before := Preimages(g, o, n), Preimages(g, o, n - 1);
      forall v: nat | v < n && g(v) == o
        ensures v in list
      {
        if v < n - 1 {
          assert v in before;
        }
      }
    }
  }

  /** How many inputs below `n` map below `o`. */
  function Below(g: nat -> nat, o: nat, n: nat): nat {
    if o == 0 then 0 else Below(g, o - 1, n) + |Preimages(g, o - 1, n)|
  }

  lemma {:induction false} BelowStep(g: nat -> nat, o: nat, n: nat)
    ensures Below(g, o, n + 1) == Below(g, o, n) + if g(n) < o then 1 else 0
  {
    if o > 0 {
      BelowStep(g, o - 1, n);
    }
  }

  /** Every input maps somewhere. */
  lemma {:induction false} BelowAll(g: nat -> nat, size: nat, n: nat)
    requires forall v: nat :: v < n ==> g(v) < size
    ensures Below(g, size, n) == n
  {
    if n == 0 {
      BelowNone(g, size);
    } else {
      BelowAll(g, size, n - 1);
      BelowStep(g, size, n - 1);
    }
  }

  lemma {:induction false} BelowNone(g: nat -> nat, o: nat)
    ensures Below(g, o, 0) == 0
  {
    if o > 0 {
      BelowNone(g, o - 1);
    }
  }

  lemma {:induction false} BelowGrows(g: nat -> nat, o: nat, p: nat, n: nat)
    requires o <= p
    ensures Below(g, o, n) <= Below(g, p, n)
    decreases p
  {
    if o < p {
      BelowGrows(g, o, p - 1, n);
    }
  }

  lemma {:induction false} PreimagesGrow(g: nat -> nat, o: nat, n: nat, m: nat)
    requires n <= m
    ensures |Preimages(g, o, n)| <= |Preimages(g, o, m)|
    decreases m
  {
    if n < m {
      PreimagesGrow(g, o, n, m - 1);
    }
  }

  method CountOutputs(g: nat -> nat, size: nat) returns (counts: array<nat>)
    requires forall v: nat :: v < size ==> g(v) < size
    ensures fresh(counts) && counts.Length == size
    ensures forall o :: 0 <= o < size ==> counts[o] == |Preimages(g, o, size)|
  {
    counts := new nat[size](_ => 0);
    for v := 0 to size
      invariant forall o :: 0 <= o < size ==> counts[o] == |Preimages(g, o, v)|
    {
      counts[g(v)] := counts[g(v)] + 1;
    }
  }

  /** Entry `o` tells how many inputs map below `o`. */
  ghost predicate StartsAt(g: nat -> nat, size: nat, first: seq<nat>, n: nat)
    requires n <= |first|
  {
    forall o :: 0 <= o < n ==> first[o] == Below(g, o, size)
  }

  method Starts(g: nat -> nat, size: nat) returns (first: array<nat>)
    requires forall v: nat :: v < size ==> g(v) < size
    ensures fresh(first) && first.Length == size + 1
    ensures StartsAt(g, size, first[..], size + 1)
  {
    var counts := CountOutputs(g, size);
    first := new nat[size + 1](_ => 0);
    for o := 0 to size
      invariant StartsAt(g, size, first[..], o + 1)
      invariant forall q :: 0 <= q < size ==> counts[q] == |Preimages(g, q, size)|
    {
      hide Preimages, Below;
      BelowNext(g, o, size);
      assert first[..][o] == Below(g, o, size);
      first[o + 1] := first[o] + counts[o];
    }
  }

  lemma BelowNext(g: nat -> nat, o: nat, n: nat)
    ensures Below(g, o + 1, n) == Below(g, o, n) + |Preimages(g, o, n)|
  {
  }

  /** Output `o`'s inputs below `v` stand in place. */
  ghost predicate Placed(g: nat -> nat, size: nat, values: seq<nat>, o: nat, v: nat) {
    var list, start := Preimages(g, o, v), Below(g, o, size);
    start + |list| <= |values| && values[start..start + |list|] == list
  }

  /** Output `o`'s share of the table has room for all its inputs, and ends where the next share
      begins. */
  lemma RoomFor(g: nat -> nat, size: nat, o: nat, v: nat)
    requires forall w: nat :: w < size ==> g(w) < size
    requires v <= size && o < size
    ensures Below(g, o, size) + |Preimages(g, o, v)| <= Below(g, o + 1, size) <= size
  {
    hide Preimages, Below;
    BelowNext(g, o, size);
    PreimagesGrow(g, o, v, size);
    BelowGrows(g, o + 1, size, size);
    BelowAll(g, size, size);
  }

  lemma NextSlot(g: nat -> nat, o: nat, v: nat)
    ensures Preimages(g, o, v + 1) == if g(v) == o then Preimages(g, o, v) + [v] else Preimages(g, o, v)
  {
  }

  /** Placing input `v` extends its own output's list and disturbs no other. */
  lemma PlaceOne(g: nat -> nat, size: nat, values: seq<nat>, v: nat, o: nat, at: nat)
    requires forall w: nat :: w < size ==> g(w) < size
    requires v < size && o < size && |values| == size
    requires at == Below(g, g(v), size) + |Preimages(g, g(v), v)|
    requires Placed(g, size, values, o, v)
    ensures at < size && Placed(g, size, values[at := v], o, v + 1)
  {
    hide Preimages, Below;
    var p := g(v);
    NextSlot(g, p, v);
    NextSlot(g, o, v);
    RoomFor(g, size, p, v + 1);
    RoomFor(g, size, o, v + 1);
    var start, count := Below(g, o, size), |Preimages(g, o, v)|;
    if o == p {
      assert values[at := v][start..start + count + 1] == values[start..start + count] + [v];
    } else {
      if o < p {
        BelowGrows(g, o + 1, p, size);
      } else {
        BelowGrows(g, p + 1, o, size);
      }
      assert values[at := v][start..start + count] == values[start..start + count];
    }
  }

  /** The table holds the inputs below `v`, and `next` tells where each output's next one goes. */
  ghost predicate Filled(g: nat -> nat, size: nat, next: seq<nat>, values: seq<nat>, v: nat) {
    && |next| == size && |values| == size
    && (forall o :: 0 <= o < size ==> next[o] == Below(g, o, size) + |Preimages(g, o, v)|)
    && (forall o :: 0 <= o < size ==> Placed(g, size, values, o, v))
  }

  lemma FillStep(g: nat -> nat, size: nat, next: seq<nat>, values: seq<nat>, v: nat)
    requires forall w: nat :: w < size ==> g(w) < size
    requires v < size && Filled(g, size, next, values, v)
    ensures next[g(v)] < size
    ensures Filled(g, size, next[g(v) := next[g(v)] + 1], values[next[g(v)] := v], v + 1)
  {
    hide Preimages, Below, Placed;
    var p := g(v);
    var at := next[p];
    PlaceOne(g, size, values, v, p, at);
    var after, table, w := next[p := at + 1], values[at := v], v + 1;
    forall o: nat | o < size
      ensures Placed(g, size, table, o, w)
    {
      PlaceOne(g, size, values, v, o, at);
    }
    forall o: nat | o < size
      ensures after[o] == Below(g, o, size) + |Preimages(g, o, w)|
    {
      NextSlot(g, o, v);
    }
  }

  lemma NothingFilled(g: nat -> nat, size: nat, next: seq<nat>, values: seq<nat>)
    requires forall v: nat :: v < size ==> g(v) < size
    requires |next| == size && |values| == size && StartsAt(g, size, next, size)
    ensures Filled(g, size, next, values, 0)
  {
    hide Below;
    forall o: nat | o < size
      ensures Placed(g, size, values, o, 0)
    {
      RoomFor(g, size, o, 0);
    }
  }

  /** Where each output's inputs start in the table of inputs. */
  datatype Index = Index(first: seq<nat>, values: seq<nat>)

  ghost predicate Covers(index: Index, size: nat) {
    && |index.first| == size + 1 && |index.values| == size
    && forall o :: 0 <= o < size ==> HasRun(index, o)
  }

  predicate HasRun(index: Index, o: nat) {
    o + 1 < |index.first| && index.first[o] <= index.first[o + 1] <= |index.values|
  }

  function Lookup(index: Index, o: nat): seq<nat>
    requires HasRun(index, o)
  {
    index.values[index.first[o]..index.first[o + 1]]
  }

  /** The run of each output lists its inputs. */
  ghost predicate Inverts(index: Index, g: nat -> nat, size: nat) {
    Covers(index, size) && forall o :: 0 <= o < size ==> Lookup(index, o) == Preimages(g, o, size)
  }

  lemma LookupExact(index: Index, g: nat -> nat, size: nat, o: nat)
    requires Inverts(index, g, size) && o < size
    ensures HasRun(index, o)
    ensures Exactly(Lookup(index, o), g, o, size)
  {
    hide Lookup, HasRun, Preimages;
    assert HasRun(index, o);
    PreimagesExact(g, o, size);
  }

  lemma FilledRun(g: nat -> nat, size: nat, next: seq<nat>, index: Index, o: nat)
    requires forall v: nat :: v < size ==> g(v) < size
    requires |index.first| == size + 1 && StartsAt(g, size, index.first, size + 1)
    requires Filled(g, size, next, index.values, size) && o < size
    ensures HasRun(index, o) && Lookup(index, o) == Preimages(g, o, size)
  {
    hide Preimages, Below;
    RoomFor(g, size, o, size);
    BelowNext(g, o, size);
    assert Placed(g, size, index.values, o, size);
  }

  /** The sort: the run of `o` lists exactly the inputs that map to `o`, ascending. */
  method Invert(g: nat -> nat, size: nat) returns (index: Index)
    requires forall v: nat :: v < size ==> g(v) < size
    ensures Inverts(index, g, size)
  {
    hide Preimages, Below, Filled, HasRun, Lookup;
    var first := Starts(g, size);
    var next := new nat[size](o requires 0 <= o < size reads first => first[o]);
    var values := new nat[size](_ => 0);
    ghost var starts := first[..];
    NothingFilled(g, size, next[..], values[..]);
    for v := 0 to size
      invariant first[..] == starts
      invariant Filled(g, size, next[..], values[..], v)
    {
      FillStep(g, size, next[..], values[..], v);
      Fill(g, v, next, values);
    }
    index := Index(first[..], values[..]);
    forall o: nat | o < size
      ensures HasRun(index, o) && Lookup(index, o) == Preimages(g, o, size)
    {
      FilledRun(g, size, next[..], index, o);
    }
  }

  method Fill(g: nat -> nat, v: nat, next: array<nat>, values: array<nat>)
    requires next != values && g(v) < next.Length && next[g(v)] < values.Length
    modifies next, values
    ensures next[..] == old(next[..][g(v) := next[g(v)] + 1])
    ensures values[..] == old(values[..][next[g(v)] := v])
  {
    values[next[g(v)]] := v;
    next[g(v)] := next[g(v)] + 1;
  }
}
