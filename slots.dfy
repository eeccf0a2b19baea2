/** The attribute-slot allocator (`allocate_aesthetic_buffers`): which of the
    per-vertex attribute buffers carries which (aesthetic, time) pair. */
module Slots {
  import opened Wrappers

  /** The aesthetics the allocator considers, in its priority order. */
  datatype Aesthetic = X | Y | Color | Size | JitterRadius | JitterSpeed | Character | X0 | Y0 | Filter1 | Filter2

  const Priorities: seq<Aesthetic> := [X, Y, Color, Size, JitterRadius, JitterSpeed, Character, X0, Y0, Filter1, Filter2]

  /** The number of attribute buffers the draw call binds (`buffer_0` to `buffer_15`). */
  const AttributeBuffers: nat := 16

  /** The fresh-slot bound of the code as written (`num++ < 16`). */
  const SourceFreshSlots: nat := 16

  /** The bound that leaves every slot, `ix` included, below `AttributeBuffers`. */
  const CorrectedFreshSlots: nat := 15

  /** `priorities.indexOf(aesthetic)`. */
  function Priority(a: Aesthetic): (r: nat)
    ensures r < |Priorities|
  {
    match a
    case X => 0 case Y => 1 case Color => 2 case Size => 3 case JitterRadius => 4
    case JitterSpeed => 5 case Character => 6 case X0 => 7 case Y0 => 8
    case Filter1 => 9 case Filter2 => 10
  }

  /** `Priority` is the position in `Priorities`. */
  lemma PriorityIndex(i: nat)
    requires i < |Priorities|
    ensures Priority(Priorities[i]) == i
  {
  }

  datatype Time = Current | Last

  /** The string `${aesthetic}--${time}` used as a key of `aes_to_buffer_num`. */
  datatype Key = Key(aesthetic: Aesthetic, time: Time)

  /** One `{aesthetic, time, field}` entry of the list being sorted. */
  datatype Pair = Pair(aesthetic: Aesthetic, time: Time, field: string)

  function KeyOf(p: Pair): Key
  {
    Key(p.aesthetic, p.time)
  }

  /** The `field` of an aesthetic's `current` and `last` states. */
  datatype Channel = Channel(current: Option<string>, last: Option<string>)

  /** A field is used only when it is truthy: present and not the empty string. */
  predicate Bound(field: Option<string>)
  {
    field.Some? && field.value != ""
  }

  function FieldAt(c: Channel, t: Time): Option<string>
  {
    match t
    case Current => c.current
    case Last => c.last
  }

  // ---------------------------------------------------------------------------
  // Collecting and ordering the pairs

  /** The pairs one aesthetic contributes: current then last, each if bound. */
  function PairsOf(bindings: map<Aesthetic, Channel>, a: Aesthetic): seq<Pair>
  {
    if a !in bindings then []
    else
      var c := bindings[a];
      (if Bound(c.current) then [Pair(a, Current, c.current.value)] else [])
      + (if Bound(c.last) then [Pair(a, Last, c.last.value)] else [])
  }

  /** The list built by walking the first `n` priorities. */
  function Collected(bindings: map<Aesthetic, Channel>, n: nat): seq<Pair>
    requires n <= |Priorities|
  {
    if n == 0 then [] else Collected(bindings, n - 1) + PairsOf(bindings, Priorities[n - 1])
  }

  function TimeRank(t: Time): nat
  {
    match t
    case Current => 0
    case Last => 1
  }

  /** The sort comparator is negative: 'current' sorts before 'last'
      (string order), then by priority. */
  predicate Precedes(a: Pair, b: Pair)
  {
    TimeRank(a.time) < TimeRank(b.time)
    || (a.time == b.time && Priority(a.aesthetic) < Priority(b.aesthetic))
  }

  predicate SortedByComparator(s: seq<Pair>)
  {
    forall i, j :: 0 <= i < j < |s| ==> Precedes(s[i], s[j])
  }

  /** The elements of `s` with time `t`, in order. */
  function WithTime(s: seq<Pair>, t: Time): (r: seq<Pair>)
    ensures |r| <= |s|
  {
    if s == [] then [] else (if s[0].time == t then [s[0]] else []) + WithTime(s[1..], t)
  }

  /** The list after `buffers.sort(...)` with the comparator of the code:
      a rearrangement of `s` with every `current` pair before every `last`
      one. */
  function SortedPairs(s: seq<Pair>): (r: seq<Pair>)
    ensures multiset(r) == multiset(s)
    ensures forall i, j :: 0 <= i < j < |r| ==> TimeRank(r[i].time) <= TimeRank(r[j].time)
  {
    WithTimeMultiset(s);
    WithTimeGrouped(s);
    WithTime(s, Current) + WithTime(s, Last)
  }

  /** Putting the `current` pairs first leaves no `last` pair before a
      `current` one. */
  lemma WithTimeGrouped(s: seq<Pair>)
    ensures var r := WithTime(s, Current) + WithTime(s, Last);
      forall i, j :: 0 <= i < j < |r| ==> TimeRank(r[i].time) <= TimeRank(r[j].time)
  {
    var a, b := WithTime(s, Current), WithTime(s, Last);
    WithTimeMembers(s, Current);
    WithTimeMembers(s, Last);
    var r := a + b;
    forall i | 0 <= i < |r|
      ensures r[i].time == if i < |a| then Current else Last
    {
      if i < |a| {
        assert r[i] in a;
      } else {
        assert r[i] == b[i - |a|];
        assert r[i] in b;
      }
    }
  }

  /** The pairs in the order the allocator walks them. */
  function OrderedPairs(bindings: map<Aesthetic, Channel>): seq<Pair>
  {
    SortedPairs(Collected(bindings, |Priorities|))
  }

  /** Collected pairs are ordered by priority, and current before last
      within one aesthetic. */
  predicate PriorityMajor(s: seq<Pair>)
  {
    forall i, j :: 0 <= i < j < |s| ==>
      Priority(s[i].aesthetic) < Priority(s[j].aesthetic)
      || (s[i].aesthetic == s[j].aesthetic && s[i].time == Current && s[j].time == Last)
  }

  /** One aesthetic contributes at most its current pair, then its last pair. */
  lemma PairsOfShape(bindings: map<Aesthetic, Channel>, a: Aesthetic)
    ensures forall p :: p in PairsOf(bindings, a) ==> p.aesthetic == a
    ensures PriorityMajor(PairsOf(bindings, a))
  {
  }


  lemma {:induction false} CollectedPriorityMajor(bindings: map<Aesthetic, Channel>, n: nat)
    requires n <= |Priorities|
    ensures PriorityMajor(Collected(bindings, n))
    ensures forall p :: p in Collected(bindings, n) ==> Priority(p.aesthetic) < n
  {
    if n > 0 {
      CollectedPriorityMajor(bindings, n - 1);
      var prev := Collected(bindings, n - 1);
      var add := PairsOf(bindings, Priorities[n - 1]);
      PairsOfShape(bindings, Priorities[n - 1]);
      PriorityIndex(n - 1);
      AppendPriorityMajor(prev, add, n - 1);
    }
  }

  lemma AppendPriorityMajor(prev: seq<Pair>, add: seq<Pair>, m: nat)
    requires PriorityMajor(prev) && PriorityMajor(add)
    requires forall p :: p in prev ==> Priority(p.aesthetic) < m
    requires forall p :: p in add ==> Priority(p.aesthetic) == m
    ensures PriorityMajor(prev + add)
    ensures forall p :: p in prev + add ==> Priority(p.aesthetic) < m + 1
  {
    var s := prev + add;
    forall i, j | 0 <= i < j < |s|
      ensures Priority(s[i].aesthetic) < Priority(s[j].aesthetic)
           || (s[i].aesthetic == s[j].aesthetic && s[i].time == Current && s[j].time == Last)
    {
      if j < |prev| {
        assert s[i] == prev[i] && s[j] == prev[j];
      } else if i < |prev| {
        assert s[i] == prev[i] && s[j] == add[j - |prev|];
      } else {
        assert s[i] == add[i - |prev|] && s[j] == add[j - |prev|];
      }
    }
  }

  lemma {:induction false} WithTimeMembers(s: seq<Pair>, t: Time)
    ensures forall p :: p in WithTime(s, t) <==> p in s && p.time == t
  {
    if s != [] {
      WithTimeMembers(s[1..], t);
      assert s == [s[0]] + s[1..];
    }
  }

  /** Under `PriorityMajor`, the head of a list comes before every element of its tail. */
  lemma HeadBeforeTail(s: seq<Pair>, q: Pair)
    requires PriorityMajor(s) && |s| > 0 && q in s[1..]
    ensures Priority(s[0].aesthetic) < Priority(q.aesthetic)
         || (s[0].aesthetic == q.aesthetic && s[0].time == Current && q.time == Last)
  {
    var k :| 0 <= k < |s[1..]| && s[1..][k] == q;
    assert s[k + 1] == q;
  }

  predicate PriorityIncreasing(s: seq<Pair>)
  {
    forall i, j :: 0 <= i < j < |s| ==> Priority(s[i].aesthetic) < Priority(s[j].aesthetic)
  }

  lemma {:induction false} WithTimeSorted(s: seq<Pair>, t: Time)
    requires PriorityMajor(s)
    ensures PriorityIncreasing(WithTime(s, t))
  {
    if s != [] {
      assert PriorityMajor(s[1..]) by {
        forall i, j | 0 <= i < j < |s[1..]| ensures s[1..][i] == s[i + 1] && s[1..][j] == s[j + 1] { }
      }
      WithTimeSorted(s[1..], t);
      WithTimeMembers(s[1..], t);
      var tail := WithTime(s[1..], t);
      if s[0].time == t {
        forall q | q in tail ensures Priority(s[0].aesthetic) < Priority(q.aesthetic) {
          HeadBeforeTail(s, q);
        }
        ConsIncreasing(s[0], tail);
      }
    }
  }

  lemma ConsIncreasing(h: Pair, tail: seq<Pair>)
    requires PriorityIncreasing(tail)
    requires forall q :: q in tail ==> Priority(h.aesthetic) < Priority(q.aesthetic)
    ensures PriorityIncreasing([h] + tail)
  {
    var r := [h] + tail;
    forall i, j | 0 <= i < j < |r| ensures Priority(r[i].aesthetic) < Priority(r[j].aesthetic) {
      assert r[j] == tail[j - 1];
      if i > 0 {
        assert r[i] == tail[i - 1];
      }
    }
  }

  lemma {:induction false} WithTimeMultiset(s: seq<Pair>)
    ensures multiset(WithTime(s, Current)) + multiset(WithTime(s, Last)) == multiset(s)
    decreases |s|, 1
  {
    if s != [] {
      WithTimeMultisetCons(s);
    }
  }

  lemma {:induction false} WithTimeMultisetCons(s: seq<Pair>)
    requires s != []
    ensures multiset(WithTime(s, Current)) + multiset(WithTime(s, Last)) == multiset(s)
    decreases |s|, 0
  {
    var h, t := s[0], s[1..];
    WithTimeMultiset(t);
    WithTimeHead(s);
    assert multiset(s) == multiset{h} + multiset(t) by {
      assert s == [h] + t;
    }
    Regroup(multiset(WithTime(s, Current)), multiset(WithTime(s, Last)),
            multiset(WithTime(t, Current)), multiset(WithTime(t, Last)), multiset{h}, multiset(t), multiset(s));
  }

  lemma Regroup<T>(x: multiset<T>, y: multiset<T>, c: multiset<T>, d: multiset<T>,
                   h: multiset<T>, tm: multiset<T>, sm: multiset<T>)
    requires x + y == h + c + d && c + d == tm && sm == h + tm
    ensures x + y == sm
  {
    assert h + c + d == h + (c + d);
  }

  /** The head of `s` goes to exactly one of the two time groups. */
  lemma WithTimeHead(s: seq<Pair>)
    requires s != []
    ensures multiset(WithTime(s, Current)) + multiset(WithTime(s, Last))
         == multiset{s[0]} + multiset(WithTime(s[1..], Current)) + multiset(WithTime(s[1..], Last))
  {
    if s[0].time == Current {
      assert WithTime(s, Current) == [s[0]] + WithTime(s[1..], Current);
      assert WithTime(s, Last) == WithTime(s[1..], Last);
    } else {
      assert WithTime(s, Last) == [s[0]] + WithTime(s[1..], Last);
      assert WithTime(s, Current) == WithTime(s[1..], Current);
    }
  }

  /** The order the allocator walks is the comparator's order, and it is a
      permutation of the collected list. */
  lemma OrderedPairsSorted(bindings: map<Aesthetic, Channel>)
    ensures SortedByComparator(OrderedPairs(bindings))
    ensures multiset(OrderedPairs(bindings)) == multiset(Collected(bindings, |Priorities|))
  {
    var s := Collected(bindings, |Priorities|);
    CollectedPriorityMajor(bindings, |Priorities|);
    WithTimeSorted(s, Current);
    WithTimeSorted(s, Last);
    WithTimeMembers(s, Current);
    WithTimeMembers(s, Last);
    WithTimeMultiset(s);
    var cs, ls := WithTime(s, Current), WithTime(s, Last);
    var r := cs + ls;
    forall i, j | 0 <= i < j < |r| ensures Precedes(r[i], r[j]) {
      if j < |cs| {
        assert r[i] == cs[i] && r[j] == cs[j];
      } else if i < |cs| {
        assert r[i] in cs && r[j] == ls[j - |cs|] && r[j] in ls;
      } else {
        assert r[i] == ls[i - |cs|] && r[j] == ls[j - |cs|];
        assert r[i] in ls && r[j] in ls;
      }
    }
  }

  /** A pair is walked exactly when its aesthetic is present and its field at
      that time is bound. */
  lemma OrderedPairsMembers(bindings: map<Aesthetic, Channel>, p: Pair)
    ensures p in OrderedPairs(bindings) <==>
      p.aesthetic in bindings && Bound(FieldAt(bindings[p.aesthetic], p.time))
      && p.field == FieldAt(bindings[p.aesthetic], p.time).value
  {
    var s := Collected(bindings, |Priorities|);
    WithTimeMembers(s, Current);
    WithTimeMembers(s, Last);
    CollectedMembers(bindings, |Priorities|, p);
  }

  lemma PriorityInjective(a: Aesthetic, b: Aesthetic)
    requires Priority(a) == Priority(b)
    ensures a == b
  {
  }

  lemma PairsOfMembers(bindings: map<Aesthetic, Channel>, a: Aesthetic, p: Pair)
    ensures p in PairsOf(bindings, a) <==>
      p.aesthetic == a && a in bindings && Bound(FieldAt(bindings[a], p.time))
      && p.field == FieldAt(bindings[a], p.time).value
  {
  }

  lemma {:induction false} CollectedMembers(bindings: map<Aesthetic, Channel>, n: nat, p: Pair)
    requires n <= |Priorities|
    ensures p in Collected(bindings, n) <==>
      Priority(p.aesthetic) < n && p.aesthetic in bindings && Bound(FieldAt(bindings[p.aesthetic], p.time))
      && p.field == FieldAt(bindings[p.aesthetic], p.time).value
  {
    if n > 0 {
      CollectedMembers(bindings, n - 1, p);
      PairsOfMembers(bindings, Priorities[n - 1], p);
      PriorityIndex(n - 1);
      if Priority(p.aesthetic) == n - 1 {
        PriorityInjective(p.aesthetic, Priorities[n - 1]);
      }
    }
  }

  /** At most one current pair per aesthetic. */
  lemma {:induction false} CurrentsAtMostEleven(bindings: map<Aesthetic, Channel>, n: nat)
    requires n <= |Priorities|
    ensures |WithTime(Collected(bindings, n), Current)| <= n
  {
    if n > 0 {
      CurrentsAtMostEleven(bindings, n - 1);
      WithTimeAppend(Collected(bindings, n - 1), PairsOf(bindings, Priorities[n - 1]), Current);
    }
  }

  lemma {:induction false} WithTimeAppend(a: seq<Pair>, b: seq<Pair>, t: Time)
    ensures WithTime(a + b, t) == WithTime(a, t) + WithTime(b, t)
  {
    if a != [] {
      WithTimeAppend(a[1..], b, t);
      var h := if a[0].time == t then [a[0]] else [];
      calc {
        WithTime(a + b, t);
        == { assert (a + b)[0] == a[0]; assert (a + b)[1..] == a[1..] + b; }
        h + WithTime(a[1..] + b, t);
        ==
        h + (WithTime(a[1..], t) + WithTime(b, t));
        ==
        (h + WithTime(a[1..], t)) + WithTime(b, t);
      }
    } else {
      assert a + b == b;
    }
  }

  // ---------------------------------------------------------------------------
  // Handing out slots

  /** The allocator's state: `aes_to_buffer_num`, `variable_to_buffer_num`,
      the insertion order of the latter's keys (what `Object.keys` returns,
      that is `buffer_num_to_variable`) and the counter `num`.  A key of
      `aes_to_buffer_num` whose value would be `undefined` is absent. */
  datatype SlotState = SlotState(aesToBufferNum: map<Key, nat>, variableToBufferNum: map<string, nat>,
                                 keyOrder: seq<string>, num: nat)

  /** `ix` is pre-allocated slot 0. */
  const Start: SlotState := SlotState(map[], map["ix" := 0], ["ix"], 0)

  /** One turn of the loop over the sorted pairs. */
  function Step(st: SlotState, p: Pair, freshSlots: nat): SlotState
  {
    var k := KeyOf(p);
    if p.field in st.variableToBufferNum then
      st.(aesToBufferNum := st.aesToBufferNum[k := st.variableToBufferNum[p.field]])
    else if st.num < freshSlots then
      var n := st.num + 1;
      SlotState(st.aesToBufferNum[k := n], st.variableToBufferNum[p.field := n], st.keyOrder + [p.field], n)
    else
      var cur := Key(p.aesthetic, Current);
      st.(num := st.num + 1,
          aesToBufferNum := if cur in st.aesToBufferNum then st.aesToBufferNum[k := st.aesToBufferNum[cur]]
                            else st.aesToBufferNum - {k})
  }

  /** The state after walking all of `pairs`. */
  function Run(pairs: seq<Pair>, freshSlots: nat): SlotState
  {
    if pairs == [] then Start else Step(Run(pairs[..|pairs| - 1], freshSlots), pairs[|pairs| - 1], freshSlots)
  }

  /** What one turn does: slots already handed out stay; a field seen
      before shares its slot; a new field takes the next slot while fewer
      than `freshSlots` were handed out, and is left without one (the
      counter still advancing) afterwards; no other key of
      `aes_to_buffer_num` changes. */
  lemma StepEffect(st: SlotState, p: Pair, freshSlots: nat)
    ensures var r := Step(st, p, freshSlots);
      && (forall f :: f in st.variableToBufferNum ==>
            f in r.variableToBufferNum && r.variableToBufferNum[f] == st.variableToBufferNum[f])
      && (forall f :: f in r.variableToBufferNum ==> f in st.variableToBufferNum || f == p.field)
      && st.num <= r.num <= st.num + 1
      && |st.keyOrder| <= |r.keyOrder| && r.keyOrder[..|st.keyOrder|] == st.keyOrder
      && (p.field in r.variableToBufferNum ==>
            KeyOf(p) in r.aesToBufferNum && r.aesToBufferNum[KeyOf(p)] == r.variableToBufferNum[p.field])
      && (p.field in st.variableToBufferNum ==> r.num == st.num && r.keyOrder == st.keyOrder)
      && (p.field !in st.variableToBufferNum && p.field in r.variableToBufferNum ==>
            r.num == st.num + 1 && r.variableToBufferNum[p.field] == r.num && r.keyOrder == st.keyOrder + [p.field])
      && (p.field !in r.variableToBufferNum ==> r.num > freshSlots)
      && (forall k :: k != KeyOf(p) ==>
            (k in r.aesToBufferNum <==> k in st.aesToBufferNum)
            && (k in st.aesToBufferNum ==> r.aesToBufferNum[k] == st.aesToBufferNum[k]))
  {
  }

  /** The walk starts from `ix` alone at slot 0: `ix` keeps slot 0 and
      heads the key order, and the counter advances at most once per pair. */
  lemma {:induction false} RunKeepsIx(pairs: seq<Pair>, freshSlots: nat)
    ensures var r := Run(pairs, freshSlots);
      && "ix" in r.variableToBufferNum && r.variableToBufferNum["ix"] == 0
      && |r.keyOrder| >= 1 && r.keyOrder[0] == "ix"
      && r.num <= |pairs|
  {
    if pairs != [] {
      RunKeepsIx(pairs[..|pairs| - 1], freshSlots);
      StepEffect(Run(pairs[..|pairs| - 1], freshSlots), pairs[|pairs| - 1], freshSlots);
    }
  }

  function Min(a: nat, b: nat): nat
  {
    if a < b then a else b
  }

  /** The shape of the three maps: `ix` is slot 0, slots are 0 up to the
      number of keys, and `buffer_num_to_variable` inverts
      `variable_to_buffer_num`. */
  ghost predicate WellFormed(st: SlotState, freshSlots: nat)
  {
    && "ix" in st.variableToBufferNum && st.variableToBufferNum["ix"] == 0
    && |st.keyOrder| == 1 + Min(st.num, freshSlots) && st.keyOrder[0] == "ix"
    && (forall s :: 0 <= s < |st.keyOrder| ==>
          st.keyOrder[s] in st.variableToBufferNum && st.variableToBufferNum[st.keyOrder[s]] == s)
    && (forall f :: f in st.variableToBufferNum ==>
          st.variableToBufferNum[f] < |st.keyOrder| && st.keyOrder[st.variableToBufferNum[f]] == f)
    && (forall k :: k in st.aesToBufferNum ==> st.aesToBufferNum[k] < |st.keyOrder|)
  }

  lemma {:induction false} RunWellFormed(pairs: seq<Pair>, freshSlots: nat)
    ensures WellFormed(Run(pairs, freshSlots), freshSlots)
  {
    if pairs != [] {
      RunWellFormed(pairs[..|pairs| - 1], freshSlots);
    }
  }

  /** The fields of the pairs, in order. */
  function Fields(pairs: seq<Pair>): (r: seq<string>)
    ensures |r| == |pairs|
  {
    if pairs == [] then [] else Fields(pairs[..|pairs| - 1]) + [pairs[|pairs| - 1].field]
  }

  /** The distinct fields other than `ix`, in order of first appearance. */
  function NewFields(fs: seq<string>): seq<string>
  {
    if fs == [] then []
    else
      var prev := NewFields(fs[..|fs| - 1]);
      var f := fs[|fs| - 1];
      if f == "ix" || f in prev then prev else prev + [f]
  }

  function Take(s: seq<string>, n: nat): seq<string>
  {
    if |s| <= n then s else s[..n]
  }

  lemma {:induction false} NewFieldsMembers(fs: seq<string>)
    ensures forall f :: f in NewFields(fs) <==> f in fs && f != "ix"
    ensures forall i, j :: 0 <= i < j < |NewFields(fs)| ==> NewFields(fs)[i] != NewFields(fs)[j]
  {
    if fs != [] {
      NewFieldsMembers(fs[..|fs| - 1]);
      assert fs == fs[..|fs| - 1] + [fs[|fs| - 1]];
    }
  }

  /** Fresh slots go, consecutively from 1, to the first `freshSlots`
      distinct fields other than `ix`, in walking order. */
  lemma {:induction false} RunAssignsFirstNewFields(pairs: seq<Pair>, freshSlots: nat)
    ensures Run(pairs, freshSlots).keyOrder == ["ix"] + Take(NewFields(Fields(pairs)), freshSlots)
    ensures Min(Run(pairs, freshSlots).num, freshSlots) == Min(|NewFields(Fields(pairs))|, freshSlots)
  {
    if pairs != [] {
      var prefix := pairs[..|pairs| - 1];
      var p := pairs[|pairs| - 1];
      RunAssignsFirstNewFields(prefix, freshSlots);
      RunWellFormed(prefix, freshSlots);
      NewFieldsMembers(Fields(prefix));
      var st := Run(prefix, freshSlots);
      var nf := NewFields(Fields(prefix));
      assert Fields(pairs)[..|pairs| - 1] == Fields(prefix);
      if p.field in st.variableToBufferNum {
        var s := st.variableToBufferNum[p.field];
        assert st.keyOrder[s] == p.field;
        assert p.field == "ix" || p.field in nf;
      } else if st.num < freshSlots {
        assert Take(nf, freshSlots) == nf;
        assert p.field !in st.keyOrder;
        assert p.field != "ix" && p.field !in nf;
      }
    }
  }

  /** What the walk leaves for one pair: the slot of its field when the
      field got one; otherwise slots were exhausted, and a `last` pair
      takes its aesthetic's `current` slot (none when that has none) while
      a `current` pair gets no slot. */
  ghost predicate Settled(st: SlotState, freshSlots: nat, p: Pair)
  {
    var k := KeyOf(p);
    var cur := Key(p.aesthetic, Current);
    if p.field in st.variableToBufferNum then
      k in st.aesToBufferNum && st.aesToBufferNum[k] == st.variableToBufferNum[p.field]
    else
      && st.num > freshSlots
      && (p.time == Current ==> k !in st.aesToBufferNum)
      && (p.time == Last ==>
            (k in st.aesToBufferNum <==> cur in st.aesToBufferNum)
            && (k in st.aesToBufferNum ==> st.aesToBufferNum[k] == st.aesToBufferNum[cur]))
  }

  /** No (aesthetic, time) pair is walked twice, and no `current` pair comes
      after a `last` one; the walking order has both properties. */
  ghost predicate Walkable(pairs: seq<Pair>)
  {
    forall i, j :: 0 <= i < j < |pairs| ==>
      KeyOf(pairs[i]) != KeyOf(pairs[j]) && !(pairs[i].time == Last && pairs[j].time == Current)
  }

  lemma OrderedPairsWalkable(bindings: map<Aesthetic, Channel>)
    ensures Walkable(OrderedPairs(bindings))
  {
    OrderedPairsSorted(bindings);
    var s := OrderedPairs(bindings);
    forall i, j | 0 <= i < j < |s|
      ensures KeyOf(s[i]) != KeyOf(s[j]) && !(s[i].time == Last && s[j].time == Current)
    {
      assert Precedes(s[i], s[j]);
    }
  }

  /** Slot sharing and the fallback: with no pair walked twice and all
      `current` pairs first, every pair ends up as `Settled` says. */
  lemma {:induction false} RunSettlesEveryPair(pairs: seq<Pair>, freshSlots: nat)
    requires Walkable(pairs)
    ensures forall i :: 0 <= i < |pairs| ==> Settled(Run(pairs, freshSlots), freshSlots, pairs[i])
    ensures forall k :: k in Run(pairs, freshSlots).aesToBufferNum ==>
      exists i :: 0 <= i < |pairs| && KeyOf(pairs[i]) == k
  {
    if pairs != [] {
      var n := |pairs| - 1;
      var prefix := pairs[..n];
      var q := pairs[n];
      assert Walkable(prefix) by {
        forall i, j | 0 <= i < j < |prefix| ensures prefix[i] == pairs[i] && prefix[j] == pairs[j] { }
      }
      RunSettlesEveryPair(prefix, freshSlots);
      var st := Run(prefix, freshSlots);
      var st' := Run(pairs, freshSlots);
      assert st' == Step(st, q, freshSlots);
      forall i | 0 <= i < |prefix| ensures KeyOf(prefix[i]) != KeyOf(q) {
        assert prefix[i] == pairs[i];
      }
      assert KeyOf(q) !in st.aesToBufferNum;
      forall i | 0 <= i < |pairs| ensures Settled(st', freshSlots, pairs[i]) {
        if i < n {
          var p := pairs[i];
          assert p == prefix[i];
          assert Settled(st, freshSlots, p);
          assert KeyOf(p) != KeyOf(q);
          if p.time == Last {
            assert Key(p.aesthetic, Current) != KeyOf(q);
          }
        }
      }
      forall k | k in st'.aesToBufferNum ensures exists i :: 0 <= i < |pairs| && KeyOf(pairs[i]) == k {
        if k != KeyOf(q) {
          var i :| 0 <= i < |prefix| && KeyOf(prefix[i]) == k;
          assert pairs[i] == prefix[i];
        }
      }
    }
  }

  /** The counter grows by at most one per pair. */
  lemma {:induction false} RunCounterBounded(pairs: seq<Pair>, freshSlots: nat)
    ensures Run(pairs, freshSlots).num <= |pairs|
  {
    if pairs != [] {
      RunCounterBounded(pairs[..|pairs| - 1], freshSlots);
    }
  }

  /** Slots only accumulate: a field that has a slot keeps it. */
  lemma {:induction false} RunSlotsPersist(pairs: seq<Pair>, m: nat, freshSlots: nat)
    requires m <= |pairs|
    ensures forall f :: f in Run(pairs[..m], freshSlots).variableToBufferNum ==>
      f in Run(pairs, freshSlots).variableToBufferNum
      && Run(pairs, freshSlots).variableToBufferNum[f] == Run(pairs[..m], freshSlots).variableToBufferNum[f]
    decreases |pairs| - m
  {
    if m < |pairs| {
      RunSlotsPersist(pairs, m + 1, freshSlots);
      assert pairs[..m + 1][..m] == pairs[..m];
      RunWellFormed(pairs[..m], freshSlots);
    } else {
      assert pairs[..m] == pairs;
    }
  }

  /** The first `freshSlots` pairs walked always get a slot for their field. */
  lemma EarlyPairsGetSlots(pairs: seq<Pair>, freshSlots: nat, i: nat)
    requires i < |pairs| && i < freshSlots
    ensures pairs[i].field in Run(pairs, freshSlots).variableToBufferNum
  {
    RunCounterBounded(pairs[..i], freshSlots);
    assert pairs[..i + 1][..i] == pairs[..i];
    assert pairs[..i + 1][i] == pairs[i];
    RunSlotsPersist(pairs, i + 1, freshSlots);
  }

  /** Every aesthetic's `current` pair gets a slot, because there are at most
      eleven of them and they are walked first. */
  lemma CurrentsAlwaysGetSlots(bindings: map<Aesthetic, Channel>, freshSlots: nat, p: Pair)
    requires freshSlots >= |Priorities|
    requires p in OrderedPairs(bindings) && p.time == Current
    ensures p.field in Run(OrderedPairs(bindings), freshSlots).variableToBufferNum
    ensures KeyOf(p) in Run(OrderedPairs(bindings), freshSlots).aesToBufferNum
  {
    var s := Collected(bindings, |Priorities|);
    var cs := WithTime(s, Current);
    var pairs := OrderedPairs(bindings);
    CurrentsAtMostEleven(bindings, |Priorities|);
    WithTimeMembers(s, Last);
    var i :| 0 <= i < |pairs| && pairs[i] == p;
    forall j | |cs| <= j < |pairs| ensures pairs[j].time == Last {
      assert pairs[j] == WithTime(s, Last)[j - |cs|];
    }
    EarlyPairsGetSlots(pairs, freshSlots, i);
    OrderedPairsWalkable(bindings);
    RunSettlesEveryPair(pairs, freshSlots);
    assert Settled(Run(pairs, freshSlots), freshSlots, pairs[i]);
  }

  /** When the distinct bound fields other than `ix` fit the fresh slots,
      every bound (aesthetic, time) pair gets a slot: its field has one and
      its key reads that slot. */
  lemma FewFieldsAllGetSlots(bindings: map<Aesthetic, Channel>, freshSlots: nat)
    requires |NewFields(Fields(OrderedPairs(bindings)))| <= freshSlots
    ensures var st := Run(OrderedPairs(bindings), freshSlots);
      forall p :: p in OrderedPairs(bindings) ==>
        && p.field in st.variableToBufferNum && KeyOf(p) in st.aesToBufferNum
        && st.aesToBufferNum[KeyOf(p)] == st.variableToBufferNum[p.field]
  {
    var pairs := OrderedPairs(bindings);
    var st := Run(pairs, freshSlots);
    RunWellFormed(pairs, freshSlots);
    RunAssignsFirstNewFields(pairs, freshSlots);
    NewFieldsMembers(Fields(pairs));
    OrderedPairsWalkable(bindings);
    RunSettlesEveryPair(pairs, freshSlots);
    forall p | p in pairs
      ensures p.field in st.variableToBufferNum
    {
      FieldsMembers(pairs, p);
      if p.field != "ix" {
        assert p.field in st.keyOrder;
      }
    }
    forall p | p in pairs
      ensures KeyOf(p) in st.aesToBufferNum && st.aesToBufferNum[KeyOf(p)] == st.variableToBufferNum[p.field]
    {
      var i :| 0 <= i < |pairs| && pairs[i] == p;
      assert Settled(st, freshSlots, pairs[i]);
    }
  }

  // ---------------------------------------------------------------------------
  // The off-by-one in the slot bound

  /** As written (`num++ < 16`), once 16 distinct fields other than `ix` are
      bound, one of them gets slot 16, for which no `buffer_16` attribute
      exists. */
  lemma AsWrittenSlotBeyondAttributes(pairs: seq<Pair>)
    requires |NewFields(Fields(pairs))| >= SourceFreshSlots
    ensures exists f :: f in Run(pairs, SourceFreshSlots).variableToBufferNum
                   && Run(pairs, SourceFreshSlots).variableToBufferNum[f] == AttributeBuffers
  {
    RunAssignsFirstNewFields(pairs, SourceFreshSlots);
    RunWellFormed(pairs, SourceFreshSlots);
    var st := Run(pairs, SourceFreshSlots);
    assert |st.keyOrder| == 17;
    assert st.variableToBufferNum[st.keyOrder[16]] == 16;
  }

  /** Bindings with sixteen distinct fields: eleven current ones and five
      last ones (those of x, y, color, size and jitter_radius). */
  ghost predicate SixteenDistinctFields(b: map<Aesthetic, Channel>)
  {
    && X in b && b[X] == Channel(Some("a"), Some("l"))
    && Y in b && b[Y] == Channel(Some("b"), Some("m"))
    && Color in b && b[Color] == Channel(Some("c"), Some("n"))
    && Size in b && b[Size] == Channel(Some("d"), Some("o"))
    && JitterRadius in b && b[JitterRadius] == Channel(Some("e"), Some("p"))
    && JitterSpeed in b && b[JitterSpeed] == Channel(Some("f"), None)
    && Character in b && b[Character] == Channel(Some("g"), None)
    && X0 in b && b[X0] == Channel(Some("h"), None)
    && Y0 in b && b[Y0] == Channel(Some("i"), None)
    && Filter1 in b && b[Filter1] == Channel(Some("j"), None)
    && Filter2 in b && b[Filter2] == Channel(Some("k"), None)
  }

  lemma {:induction false} FieldsMembers(pairs: seq<Pair>, p: Pair)
    requires p in pairs
    ensures p.field in Fields(pairs)
  {
    if p != pairs[|pairs| - 1] {
      assert pairs == pairs[..|pairs| - 1] + [pairs[|pairs| - 1]];
      FieldsMembers(pairs[..|pairs| - 1], p);
    }
  }

  /** A sequence without repeats is at least as long as any set of its elements. */
  lemma {:induction false} DistinctLength(s: seq<string>, elems: set<string>)
    requires forall i, j :: 0 <= i < j < |s| ==> s[i] != s[j]
    requires forall x :: x in elems ==> x in s
    ensures |elems| <= |s|
  {
    if s != [] {
      var last := s[|s| - 1];
      var init := s[..|s| - 1];
      forall x | x in elems - {last} ensures x in init {
        var k :| 0 <= k < |s| && s[k] == x;
        assert k < |s| - 1;
        assert init[k] == x;
      }
      DistinctLength(init, elems - {last});
    }
  }

  /** The field of a walked pair is among the fields that compete for fresh slots. */
  lemma WalkedFieldCompetes(bindings: map<Aesthetic, Channel>, p: Pair)
    requires p.aesthetic in bindings && Bound(FieldAt(bindings[p.aesthetic], p.time))
    requires p.field == FieldAt(bindings[p.aesthetic], p.time).value && p.field != "ix"
    ensures p.field in NewFields(Fields(OrderedPairs(bindings)))
  {
    OrderedPairsMembers(bindings, p);
    FieldsMembers(OrderedPairs(bindings), p);
    NewFieldsMembers(Fields(OrderedPairs(bindings)));
  }

  /** A concrete binding that reaches the bound: its sixteen fields are all
      distinct, so under the code's bound one of them gets slot 16. */
  lemma SixteenFieldsReachSlot16(b: map<Aesthetic, Channel>)
    requires SixteenDistinctFields(b)
    ensures exists f :: f in Run(OrderedPairs(b), SourceFreshSlots).variableToBufferNum
                   && Run(OrderedPairs(b), SourceFreshSlots).variableToBufferNum[f] == 16
  {
    WalkedFieldCompetes(b, Pair(X, Current, "a"));
    WalkedFieldCompetes(b, Pair(Y, Current, "b"));
    WalkedFieldCompetes(b, Pair(Color, Current, "c"));
    WalkedFieldCompetes(b, Pair(Size, Current, "d"));
    WalkedFieldCompetes(b, Pair(JitterRadius, Current, "e"));
    WalkedFieldCompetes(b, Pair(JitterSpeed, Current, "f"));
    WalkedFieldCompetes(b, Pair(Character, Current, "g"));
    WalkedFieldCompetes(b, Pair(X0, Current, "h"));
    WalkedFieldCompetes(b, Pair(Y0, Current, "i"));
    WalkedFieldCompetes(b, Pair(Filter1, Current, "j"));
    WalkedFieldCompetes(b, Pair(Filter2, Current, "k"));
    WalkedFieldCompetes(b, Pair(X, Last, "l"));
    WalkedFieldCompetes(b, Pair(Y, Last, "m"));
    WalkedFieldCompetes(b, Pair(Color, Last, "n"));
    WalkedFieldCompetes(b, Pair(Size, Last, "o"));
    WalkedFieldCompetes(b, Pair(JitterRadius, Last, "p"));
    var pairs := OrderedPairs(b);
    NewFieldsMembers(Fields(pairs));
    SixteenNamesFit(NewFields(Fields(pairs)));
    AsWrittenSlotBeyondAttributes(pairs);
  }

  /** The sixteen field names of `SixteenDistinctFields`. */
  function SixteenNames(): set<string>
  {
    {"a", "b", "c", "d", "e", "f", "g", "h", "i", "j", "k", "l", "m", "n", "o", "p"}
  }

  lemma SixteenNamesCount()
    ensures |SixteenNames()| == 16
  {
    var low := {"a", "b", "c", "d", "e", "f", "g", "h"};
    var high := {"i", "j", "k", "l", "m", "n", "o", "p"};
    assert |low| == 8;
    assert |high| == 8;
    assert low !! high;
    assert SixteenNames() == low + high;
  }

  lemma SixteenNamesIn(nf: seq<string>)
    requires "a" in nf && "b" in nf && "c" in nf && "d" in nf && "e" in nf && "f" in nf && "g" in nf && "h" in nf
    requires "i" in nf && "j" in nf && "k" in nf && "l" in nf && "m" in nf && "n" in nf && "o" in nf && "p" in nf
    ensures forall x :: x in SixteenNames() ==> x in nf
  {
  }

  lemma SixteenNamesFit(nf: seq<string>)
    requires forall i, j :: 0 <= i < j < |nf| ==> nf[i] != nf[j]
    requires "a" in nf && "b" in nf && "c" in nf && "d" in nf && "e" in nf && "f" in nf && "g" in nf && "h" in nf
    requires "i" in nf && "j" in nf && "k" in nf && "l" in nf && "m" in nf && "n" in nf && "o" in nf && "p" in nf
    ensures |nf| >= 16
  {
    SixteenNamesIn(nf);
    SixteenNamesCount();
    DistinctLength(nf, SixteenNames());
  }

  /** With the bound the comment at the top of the function intends (15
      fresh slots after `ix`), every slot names an existing attribute buffer. */
  lemma CorrectedSlotsFitAttributes(pairs: seq<Pair>)
    ensures forall f :: f in Run(pairs, CorrectedFreshSlots).variableToBufferNum ==>
      Run(pairs, CorrectedFreshSlots).variableToBufferNum[f] < AttributeBuffers
    ensures forall k :: k in Run(pairs, CorrectedFreshSlots).aesToBufferNum ==>
      Run(pairs, CorrectedFreshSlots).aesToBufferNum[k] < AttributeBuffers
  {
    RunWellFormed(pairs, CorrectedFreshSlots);
  }

  // ---------------------------------------------------------------------------
  // The allocator

  /** What the code promises of the three maps for any binding: `ix` is
      slot 0; fresh slots run from 1 to at most `freshSlots` and go to the
      first distinct fields in walking order; `buffer_num_to_variable` and
      `variable_to_buffer_num` are inverse; a pair whose field has a slot
      uses it; every pair is settled (slot, fallback, or none); and with at
      least eleven fresh slots every `current` pair gets one. */
  lemma AllocationProperties(bindings: map<Aesthetic, Channel>, freshSlots: nat)
    ensures var st := Run(OrderedPairs(bindings), freshSlots);
      && "ix" in st.variableToBufferNum && st.variableToBufferNum["ix"] == 0
      && st.keyOrder == ["ix"] + Take(NewFields(Fields(OrderedPairs(bindings))), freshSlots)
      && (forall f :: f in st.variableToBufferNum ==>
            st.variableToBufferNum[f] <= freshSlots && st.variableToBufferNum[f] < |st.keyOrder|
            && st.keyOrder[st.variableToBufferNum[f]] == f)
      && (forall s :: 0 <= s < |st.keyOrder| ==>
            st.keyOrder[s] in st.variableToBufferNum && st.variableToBufferNum[st.keyOrder[s]] == s)
      && (forall p :: p in OrderedPairs(bindings) ==> Settled(st, freshSlots, p))
      && (freshSlots >= |Priorities| ==> forall p :: p in OrderedPairs(bindings) && p.time == Current ==>
            p.field in st.variableToBufferNum)
  {
    var pairs := OrderedPairs(bindings);
    RunWellFormed(pairs, freshSlots);
    RunAssignsFirstNewFields(pairs, freshSlots);
    OrderedPairsWalkable(bindings);
    RunSettlesEveryPair(pairs, freshSlots);
    forall p | p in pairs && p.time == Current && freshSlots >= |Priorities|
      ensures p.field in Run(pairs, freshSlots).variableToBufferNum
    {
      CurrentsAlwaysGetSlots(bindings, freshSlots, p);
    }
  }

  /** The loop of the code that collects the bound pairs in priority order. */
  method CollectPairs(bindings: map<Aesthetic, Channel>) returns (buffers: seq<Pair>)
    ensures buffers == Collected(bindings, |Priorities|)
  {
    buffers := [];
    for i := 0 to |Priorities|
      invariant buffers == Collected(bindings, i)
    {
      var aesthetic := Priorities[i];
      if aesthetic in bindings {
        var c := bindings[aesthetic];
        if Bound(c.current) {
          buffers := buffers + [Pair(aesthetic, Current, c.current.value)];
        }
        if Bound(c.last) {
          buffers := buffers + [Pair(aesthetic, Last, c.last.value)];
        }
      }
    }
  }

  /** `allocate_aesthetic_buffers`, with the fresh-slot bound as a parameter:
      the code passes `SourceFreshSlots`. */
  method AllocateAestheticBuffers(bindings: map<Aesthetic, Channel>, freshSlots: nat)
    returns (aesToBufferNum: map<Key, nat>, variableToBufferNum: map<string, nat>, bufferNumToVariable: seq<string>)
    ensures var st := Run(OrderedPairs(bindings), freshSlots);
      aesToBufferNum == st.aesToBufferNum && variableToBufferNum == st.variableToBufferNum
      && bufferNumToVariable == st.keyOrder
    ensures "ix" in variableToBufferNum && variableToBufferNum["ix"] == 0
    ensures bufferNumToVariable == ["ix"] + Take(NewFields(Fields(OrderedPairs(bindings))), freshSlots)
    ensures forall f :: f in variableToBufferNum ==>
      variableToBufferNum[f] <= freshSlots && variableToBufferNum[f] < |bufferNumToVariable|
      && bufferNumToVariable[variableToBufferNum[f]] == f
    ensures forall p :: p in OrderedPairs(bindings) && p.field in variableToBufferNum ==>
      KeyOf(p) in aesToBufferNum && aesToBufferNum[KeyOf(p)] == variableToBufferNum[p.field]
    ensures freshSlots >= |Priorities| ==> forall p :: p in OrderedPairs(bindings) && p.time == Current ==>
      p.field in variableToBufferNum
  {
    var buffers := CollectPairs(bindings);
    // `buffers.sort(...)`: current before last, then by priority.
    buffers := SortedPairs(buffers);
    aesToBufferNum, variableToBufferNum, bufferNumToVariable := AssignSlots(buffers, freshSlots);
    AllocationProperties(bindings, freshSlots);
  }

  /** The loop of `allocate_aesthetic_buffers` over the sorted pairs. */
  method AssignSlots(buffers: seq<Pair>, freshSlots: nat)
    returns (aesToBufferNum: map<Key, nat>, variableToBufferNum: map<string, nat>, bufferNumToVariable: seq<string>)
    ensures aesToBufferNum == Run(buffers, freshSlots).aesToBufferNum
    ensures variableToBufferNum == Run(buffers, freshSlots).variableToBufferNum
    ensures bufferNumToVariable == Run(buffers, freshSlots).keyOrder
  {
    aesToBufferNum, variableToBufferNum := map[], map["ix" := 0];
    var order := ["ix"];
    var num := 0;
    for i := 0 to |buffers|
      invariant SlotState(aesToBufferNum, variableToBufferNum, order, num) == Run(buffers[..i], freshSlots)
    {
      var p := buffers[i];
      var k := KeyOf(p);
      assert buffers[..i + 1][..i] == buffers[..i];
      if p.field in variableToBufferNum {
        aesToBufferNum := aesToBufferNum[k := variableToBufferNum[p.field]];
      } else if num < freshSlots {
        num := num + 1;
        aesToBufferNum := aesToBufferNum[k := num];
        variableToBufferNum := variableToBufferNum[p.field := num];
        order := order + [p.field];
      } else {
        num := num + 1;
        var cur := Key(p.aesthetic, Current);
        if cur in aesToBufferNum {
          aesToBufferNum := aesToBufferNum[k := aesToBufferNum[cur]];
        } else {
          aesToBufferNum := aesToBufferNum - {k};
        }
      }
    }
    assert buffers[..|buffers|] == buffers;
    bufferNumToVariable := order;
  }

  /** Aesthetics absent from the bindings add nothing to the walk. */
  lemma {:induction false} CollectedUnbound(bindings: map<Aesthetic, Channel>, m: nat, n: nat)
    requires m <= n <= |Priorities|
    requires forall k :: m <= k < n ==> Priorities[k] !in bindings
    ensures Collected(bindings, n) == Collected(bindings, m)
    decreases n - m
  {
    if m < n {
      CollectedUnbound(bindings, m, n - 1);
    }
  }

  lemma {:induction false} WithTimeAll(s: seq<Pair>, t: Time)
    requires forall p :: p in s ==> p.time == t
    ensures WithTime(s, t) == s
  {
    if s != [] {
      WithTimeAll(s[1..], t);
      assert s == [s[0]] + s[1..];
    }
  }

  /** The binding of the example below: x, y and color bound to the fields
      `x`, `y` and `year`, with no `last` fields. */
  function ThreeChannels(): map<Aesthetic, Channel>
  {
    map[X := Channel(Some("x"), None), Y := Channel(Some("y"), None), Color := Channel(Some("year"), None)]
  }

  lemma ThreeChannelsCollected()
    ensures Collected(ThreeChannels(), 3) ==
      [Pair(X, Current, "x"), Pair(Y, Current, "y"), Pair(Color, Current, "year")]
  {
    var b := ThreeChannels();
    assert PairsOf(b, X) == [Pair(X, Current, "x")];
    assert PairsOf(b, Y) == [Pair(Y, Current, "y")];
    assert PairsOf(b, Color) == [Pair(Color, Current, "year")];
    assert Collected(b, 1) == [Pair(X, Current, "x")];
    assert Collected(b, 2) == [Pair(X, Current, "x"), Pair(Y, Current, "y")];
  }

  lemma ThreeChannelPairs()
    ensures OrderedPairs(ThreeChannels()) ==
      [Pair(X, Current, "x"), Pair(Y, Current, "y"), Pair(Color, Current, "year")]
  {
    var b := ThreeChannels();
    var three := [Pair(X, Current, "x"), Pair(Y, Current, "y"), Pair(Color, Current, "year")];
    ThreeChannelsCollected();
    CollectedUnbound(b, 3, |Priorities|);
    WithTimeAll(three, Current);
    WithTimeMembers(three, Last);
    assert WithTime(three, Last) == [];
  }

  /** The example: x gets slot 1, y slot 2 and color slot 3. */
  lemma ThreeChannelExample()
    ensures var st := Run(OrderedPairs(ThreeChannels()), SourceFreshSlots);
      && st.aesToBufferNum == map[Key(X, Current) := 1, Key(Y, Current) := 2, Key(Color, Current) := 3]
      && st.keyOrder == ["ix", "x", "y", "year"]
  {
    ThreeChannelPairs();
    ThreeChannelRun();
  }

  lemma ThreeChannelRun()
    ensures Run([Pair(X, Current, "x"), Pair(Y, Current, "y"), Pair(Color, Current, "year")], SourceFreshSlots)
         == SlotState(map[Key(X, Current) := 1, Key(Y, Current) := 2, Key(Color, Current) := 3],
                      map["ix" := 0, "x" := 1, "y" := 2, "year" := 3], ["ix", "x", "y", "year"], 3)
  {
    var three := [Pair(X, Current, "x"), Pair(Y, Current, "y"), Pair(Color, Current, "year")];
    var s1 := SlotState(map[Key(X, Current) := 1], map["ix" := 0, "x" := 1], ["ix", "x"], 1);
    var s2 := SlotState(map[Key(X, Current) := 1, Key(Y, Current) := 2], map["ix" := 0, "x" := 1, "y" := 2],
                        ["ix", "x", "y"], 2);
    var s3 := SlotState(map[Key(X, Current) := 1, Key(Y, Current) := 2, Key(Color, Current) := 3],
                        map["ix" := 0, "x" := 1, "y" := 2, "year" := 3], ["ix", "x", "y", "year"], 3);
    assert Step(Start, three[0], SourceFreshSlots) == s1;
    assert Step(s1, three[1], SourceFreshSlots) == s2;
    assert Step(s2, three[2], SourceFreshSlots) == s3;
    assert three[..2][..1][..0] == [];
    assert Run(three[..1], SourceFreshSlots) == s1;
    assert Run(three[..2], SourceFreshSlots) == s2;
  }
}
