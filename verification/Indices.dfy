/** The interface-to-index allocator of the dispatcher (src/engine/dispatcher.rs). */
module Indices {
  import opened Kernel
  import opened Sets

  type IndexMap<K> = map<K, Index>

  const U8_MAX: nat := 255

  /** The cast to a byte. */
  function ToU8(n: nat): Index {
    if n < 256 then n else n % 256
  }

  lemma CutToByte(n: nat)
    ensures ToU8(n) == n % 256
  {
  }

  function Names<K(==)>(names: seq<K>): set<K> {
    set n | n in names
  }

  /** The configured interfaces take 0, 1, 2, ... as the map walks them. */
  function NewIndices<K(==)>(names: seq<K>): IndexMap<K> {
    if names == [] then map[]
    else
      var idx := |names| - 1;
      var m := NewIndices(names[..idx]);
      if idx < U8_MAX then m[names[idx] := idx] else m
  }

  /** An unknown interface takes the current count, cut to a byte. */
  function AssignIndex<K(==)>(indices: IndexMap<K>, name: K): (IndexMap<K>, Index) {
    if name in indices then (indices, indices[name])
    else var idx := ToU8(|indices|); (indices[name := idx], idx)
  }

  /** A configured name keeps its index if it has one and else takes the next one below 255. */
  function RebuildOne<K(==)>(existing: IndexMap<K>, m: IndexMap<K>, next: Index, name: K): (IndexMap<K>, Index) {
    if name in existing then (m[name := existing[name]], next)
    else if next < U8_MAX then (m[name := next], next + 1)
    else (m, next)
  }

  /** The rebuilt map, and the next free index, after the given names. */
  function Rebuild<K(==)>(existing: IndexMap<K>, names: seq<K>): (IndexMap<K>, Index) {
    if names == [] then (map[], ToU8(|existing|))
    else
      var (m, next) := Rebuild(existing, names[..|names| - 1]);
      RebuildOne(existing, m, next, names[|names| - 1])
  }

  function UpdateIndices<K(==)>(existing: IndexMap<K>, names: seq<K>): IndexMap<K> {
    Rebuild(existing, names).0
  }

  method BuildNewIndices<K(==)>(names: seq<K>) returns (indices: IndexMap<K>)
    ensures indices == NewIndices(names)
  {
    indices := map[];
    for idx := 0 to |names|
      invariant indices == NewIndices(names[..idx])
    {
      assert names[..idx + 1][..idx] == names[..idx];
      if idx < U8_MAX {
        indices := indices[names[idx] := idx];
      }
    }
    assert names[..|names|] == names;
  }

  method RebuildIndices<K(==)>(existing: IndexMap<K>, names: seq<K>) returns (indices: IndexMap<K>)
    ensures indices == UpdateIndices(existing, names)
  {
    indices := map[];
    var next: Index := ToU8(|existing|);
    for n := 0 to |names|
      invariant (indices, next) == Rebuild(existing, names[..n])
    {
      assert names[..n + 1][..n] == names[..n];
      if names[n] in existing {
        indices := indices[names[n] := existing[names[n]]];
      } else if next < U8_MAX {
        indices, next := indices[names[n] := next], next + 1;
      }
    }
    assert names[..|names|] == names;
  }

  ghost predicate Injective<K>(m: IndexMap<K>) {
    forall a, b :: a in m && b in m && a != b ==> m[a] != m[b]
  }

  ghost predicate Dense<K>(m: IndexMap<K>) {
    Injective(m) && forall a :: a in m ==> m[a] < |m|
  }

  function Below(n: nat): (b: set<nat>)
    ensures |b| == n && forall i :: i in b <==> 0 <= i < n
  {
    if n == 0 then {} else Below(n - 1) + {n - 1}
  }

  /** A dense map's values are exactly 0 to len - 1. */
  lemma DenseValues<K>(m: IndexMap<K>)
    requires Dense(m)
    ensures m.Values == Below(|m|)
  {
    InjectiveSize(m);
    assert m.Values <= Below(|m|);
    SameSizeSubset(m.Values, Below(|m|));
  }

  lemma {:induction false} InjectiveSize<K>(m: IndexMap<K>)
    requires Injective(m)
    ensures |m.Values| == |m|
    decreases |m|
  {
    if m != map[] {
      var a :| a in m;
      var rest := m - {a};
      assert rest.Keys == m.Keys - {a};
      InjectiveSize(rest);
      forall v | v in m.Values ensures v in rest.Values + {m[a]} {
        var b :| b in m && m[b] == v;
        assert b != a ==> b in rest && rest[b] == v;
      }
      assert m.Values == rest.Values + {m[a]};
      assert m[a] !in rest.Values;
    }
  }

  ghost predicate Distinct<K>(names: seq<K>) {
    forall i, j :: 0 <= i < j < |names| ==> names[i] != names[j]
  }

  lemma {:induction false} NewIsDense<K>(names: seq<K>)
    requires Distinct(names) && |names| <= U8_MAX
    ensures Dense(NewIndices(names)) && NewIndices(names).Keys == Names(names) && |NewIndices(names)| == |names|
  {
    if names != [] {
      var idx := |names| - 1;
      var m := NewIndices(names[..idx]);
      NewIsDense(names[..idx]);
      NamesGrow(names);
      ExtendingKeepsDense(m, names[idx]);
      assert NewIndices(names) == m[names[idx] := idx];
    }
  }

  /** The i-th configured interface has index i, and those from the 256th on have none. */
  lemma {:induction false} NewIndicesByPosition<K>(names: seq<K>, i: nat)
    requires Distinct(names) && i < |names|
    ensures names[i] in NewIndices(names) <==> i < 255
    ensures i < 255 ==> NewIndices(names)[names[i]] == i
    ensures forall a :: a in NewIndices(names) ==> a in names
  {
    var idx := |names| - 1;
    assert names == names[..idx] + [names[idx]];
    if 0 < idx {
      NewIndicesByPosition(names[..idx], if i < idx then i else 0);
    } else {
      assert NewIndices(names[..idx]) == map[];
    }
  }

  lemma ExtendingKeepsDense<K>(m: IndexMap<K>, name: K)
    requires Dense(m) && name !in m && |m| <= U8_MAX
    ensures Dense(m[name := |m|]) && |m[name := |m|]| == |m| + 1
  {
    assert m[name := |m|].Keys == m.Keys + {name};
  }

  /** What rebuilding keeps: known names have their old index, and the others have one from
      the old count up to the next. */
  ghost predicate Rebuilding<K>(existing: IndexMap<K>, m: IndexMap<K>, next: nat) {
    && |existing| <= next
    && (forall a :: a in m && a in existing ==> m[a] == existing[a])
    && (forall a :: a in m && a !in existing ==> |existing| <= m[a] < next)
  }

  lemma RebuildOneValues<K>(existing: IndexMap<K>, m: IndexMap<K>, next: Index, name: K)
    requires Dense(existing) && Injective(m) && Rebuilding(existing, m, next)
    requires name !in existing ==> name !in m && next < U8_MAX
    ensures var (m', next') := RebuildOne(existing, m, next, name); Injective(m') && Rebuilding(existing, m', next')
  {
  }

  /** How many of the names have no index yet. */
  function NewNames<K(==)>(existing: IndexMap<K>, names: seq<K>): nat {
    if names == [] then 0
    else NewNames(existing, names[..|names| - 1]) + if names[|names| - 1] in existing then 0 else 1
  }

  /** names is one longer than init. */
  lemma NamesGrow<K>(names: seq<K>)
    requires names != [] && Distinct(names)
    ensures var init, name := names[..|names| - 1], names[|names| - 1];
            Distinct(init) && name !in Names(init) && Names(names) == Names(init) + {name}
  {
    assert names == names[..|names| - 1] + [names[|names| - 1]];
  }

  lemma {:induction false} NamesCount<K>(existing: IndexMap<K>, names: seq<K>)
    requires Distinct(names)
    ensures |Names(names)| == |names| == |Names(names) * existing.Keys| + NewNames(existing, names)
  {
    if names == [] {
      assert Names(names) * existing.Keys == {};
    } else {
      NamesGrow(names);
      var init, name := names[..|names| - 1], names[|names| - 1];
      NamesCount(existing, init);
      var common := Names(init) * existing.Keys;
      assert Names(names) * existing.Keys == if name in existing then common + {name} else common;
    }
  }

  lemma {:induction false} RebuildReaches<K>(existing: IndexMap<K>, names: seq<K>)
    requires Distinct(names) && Dense(existing) && |existing| + NewNames(existing, names) <= U8_MAX
    ensures var (m, next) := Rebuild(existing, names);
            && m.Keys == Names(names) && next == |existing| + NewNames(existing, names)
            && Injective(m) && Rebuilding(existing, m, next)
  {
    if names != [] {
      NamesGrow(names);
      var init, name := names[..|names| - 1], names[|names| - 1];
      RebuildReaches(existing, init);
      var (m, next) := Rebuild(existing, init);
      RebuildOneValues(existing, m, next, name);
    }
  }

  /** A reload that drops no known interface keeps the map dense and every index as it was. */
  lemma UpdateKeepsDense<K>(existing: IndexMap<K>, names: seq<K>)
    requires Dense(existing) && Distinct(names) && existing.Keys <= Names(names) && |names| <= U8_MAX
    ensures Dense(UpdateIndices(existing, names))
    ensures UpdateIndices(existing, names).Keys == Names(names)
    ensures forall a :: a in existing ==> UpdateIndices(existing, names)[a] == existing[a]
  {
    NamesCount(existing, names);
    assert Names(names) * existing.Keys == existing.Keys;
    RebuildReaches(existing, names);
  }

  /** The next free index after a reload: from the old count, cut to a byte, one further for
      every new name, and never past 255. */
  function NextIndex<K(==)>(existing: IndexMap<K>, names: seq<K>): nat {
    IndexAfter(existing, NewNames(existing, names))
  }

  /** In numbers: below 255, and from the count modulo 256 on. */
  function GivenUpTo<K(==)>(existing: IndexMap<K>, names: seq<K>): nat {
    var next := |existing| % 256 + NewNames(existing, names);
    if next < 255 then next else 255
  }

  function IndexAfter<K(==)>(existing: IndexMap<K>, news: nat): nat {
    var next := ToU8(|existing|) + news;
    if next < U8_MAX then next else U8_MAX
  }

  /** Some new name has this index. */
  ghost predicate TakenByNew<K>(existing: IndexMap<K>, m: IndexMap<K>, v: nat) {
    exists a :: a in m && a !in existing && m[a] == v
  }

  /** Of the names met so far the new ones share out the indices from the old count on. */
  ghost predicate SharesOut<K>(existing: IndexMap<K>, met: set<K>, m: IndexMap<K>, next: nat) {
    && m.Keys <= met
    && (forall a :: a in existing && a in met ==> a in m && m[a] == existing[a])
    && (forall a :: a in m && a !in existing ==> ToU8(|existing|) <= m[a] < next)
    && (forall a, b :: a in m && b in m && a !in existing && b !in existing && a != b ==> m[a] != m[b])
    && forall v :: ToU8(|existing|) <= v < next ==> TakenByNew(existing, m, v)
  }

  lemma SharesOutStep<K>(existing: IndexMap<K>, met: set<K>, m: IndexMap<K>, next: Index, name: K)
    requires SharesOut(existing, met, m, next) && name !in met && ToU8(|existing|) <= next
    ensures var (m', next') := RebuildOne(existing, m, next, name);
            SharesOut(existing, met + {name}, m', next')
  {
    var (m', next') := RebuildOne(existing, m, next, name);
    forall v | ToU8(|existing|) <= v < next' ensures TakenByNew(existing, m', v) {
      if v < next {
        assert TakenByNew(existing, m, v);
        var a :| a in m && a !in existing && m[a] == v;
        assert a in m' && m'[a] == v;
      } else {
        assert name in m' && m'[name] == v;
      }
    }
  }

  lemma {:induction false} RebuildSharesOut<K>(existing: IndexMap<K>, names: seq<K>)
    requires Distinct(names)
    ensures var (m, next) := Rebuild(existing, names);
            SharesOut(existing, Names(names), m, next) && next == NextIndex(existing, names)
  {
    if names != [] {
      NamesGrow(names);
      RebuildSharesOut(existing, names[..|names| - 1]);
      var (m, next) := Rebuild(existing, names[..|names| - 1]);
      SharesOutStep(existing, Names(names[..|names| - 1]), m, next, names[|names| - 1]);
    }
  }

  /** After a reload the names that were known keep their index, the others have one from the old
      count, cut to a byte, up to 254, and while there is room for them all none goes without. */
  lemma ReloadedIndices<K>(existing: IndexMap<K>, names: seq<K>)
    requires Distinct(names)
    ensures var m := UpdateIndices(existing, names);
            && m.Keys <= Names(names)
            && (forall a :: a in existing && a in Names(names) ==> a in m && m[a] == existing[a])
            && (forall a :: a in m && a !in existing ==> |existing| % 256 <= m[a] < 255)
            && (|existing| % 256 + NewNames(existing, names) <= 255 ==> m.Keys == Names(names))
  {
    CutToByte(|existing|);
    RebuildSharesOut(existing, names);
    if |existing| % 256 + NewNames(existing, names) <= 255 {
      RebuildKeepsAll(existing, names);
    }
  }

  lemma {:induction false} RebuildKeepsAll<K>(existing: IndexMap<K>, names: seq<K>)
    requires Distinct(names) && ToU8(|existing|) + NewNames(existing, names) <= U8_MAX
    ensures var (m, next) := Rebuild(existing, names);
            m.Keys == Names(names) && next == ToU8(|existing|) + NewNames(existing, names)
  {
    if names != [] {
      NamesGrow(names);
      RebuildKeepsAll(existing, names[..|names| - 1]);
    }
  }

  /** A reload keeps an injective map injective exactly when no name that keeps its index has
      one that the new names are given. */
  lemma ReloadKeepsInjective<K>(existing: IndexMap<K>, names: seq<K>)
    requires Injective(existing) && Distinct(names)
    ensures Injective(UpdateIndices(existing, names)) <==>
            forall a :: a in existing && a in Names(names) ==>
              !(|existing| % 256 <= existing[a] < GivenUpTo(existing, names))
  {
    CutToByte(|existing|);
    RebuildSharesOut(existing, names);
    if a :| a in existing && a in Names(names) && ToU8(|existing|) <= existing[a] < NextIndex(existing, names) {
      assert TakenByNew(existing, UpdateIndices(existing, names), existing[a]);
    }
  }

  datatype IndexOp<K> = Get(name: K) | Reload(names: seq<K>)

  function IndexStep<K(==)>(m: IndexMap<K>, op: IndexOp<K>): IndexMap<K> {
    match op
    case Get(name) => AssignIndex(m, name).0
    case Reload(names) => UpdateIndices(m, names)
  }

  function IndexRun<K(==)>(m: IndexMap<K>, ops: seq<IndexOp<K>>): IndexMap<K>
    decreases |ops|
  {
    if ops == [] then m else IndexRun(IndexStep(m, ops[0]), ops[1..])
  }

  /** No reload drops a known interface, and there are never more than 255. */
  ghost predicate NeverDrops<K>(m: IndexMap<K>, ops: seq<IndexOp<K>>)
    decreases |ops|
  {
    ops == [] ||
    ((match ops[0]
      case Get(name) => name in m || |m| < U8_MAX
      case Reload(names) => Distinct(names) && m.Keys <= Names(names) && |names| <= U8_MAX)
     && NeverDrops(IndexStep(m, ops[0]), ops[1..]))
  }

  lemma GetKeepsDense<K>(m: IndexMap<K>, name: K)
    requires Dense(m) && (name in m || |m| < U8_MAX)
    ensures Dense(AssignIndex(m, name).0)
  {
    if name !in m {
      ExtendingKeepsDense(m, name);
    }
  }

  lemma {:induction false} RunKeepsDense<K>(m: IndexMap<K>, ops: seq<IndexOp<K>>)
    requires Dense(m) && NeverDrops(m, ops)
    ensures Dense(IndexRun(m, ops))
    ensures forall a :: a in m ==> a in IndexRun(m, ops) && IndexRun(m, ops)[a] == m[a]
    decreases |ops|
  {
    if ops != [] {
      match ops[0] {
        case Get(name) => GetKeepsDense(m, name);
        case Reload(names) => UpdateKeepsDense(m, names);
      }
      RunKeepsDense(IndexStep(m, ops[0]), ops[1..]);
    }
  }

  /** From a new dispatcher, any run that never drops an interface keeps the indices exactly
      0 to len - 1, never moves one, and gives every interface its own table. */
  lemma AllocatorIsInjective<K>(names: seq<K>, ops: seq<IndexOp<K>>, base: nat)
    requires Distinct(names) && |names| <= U8_MAX && NeverDrops(NewIndices(names), ops)
    ensures var m := IndexRun(NewIndices(names), ops);
            && Injective(m) && m.Values == Below(|m|)
            && (forall a :: a in NewIndices(names) ==> a in m && m[a] == NewIndices(names)[a])
            && forall a, b :: a in m && b in m && TableIdV4(base, m[a]) == TableIdV4(base, m[b]) ==> a == b
  {
    NewIsDense(names);
    RunKeepsDense(NewIndices(names), ops);
    DenseValues(IndexRun(NewIndices(names), ops));
  }

  /** An assignment keeps an injective map injective exactly when the current count, cut to a
      byte, is not already some interface's index. */
  lemma AssignmentCollides<K>(m: IndexMap<K>, name: K)
    requires Injective(m) && name !in m
    ensures Injective(AssignIndex(m, name).0) <==> |m| % 256 !in m.Values
  {
    CutToByte(|m|);
    var (m', idx) := AssignIndex(m, name);
    if idx in m.Values {
      var a :| a in m && m[a] == idx;
      assert m'[a] == m'[name] && a != name;
    }
  }

  /** One dropped interface is enough: the next new one shares an index, hence a table. */
  lemma DropThenNewCollides()
    ensures var m := IndexRun(NewIndices(["eth0", "wlan0"]), [Reload(["wlan0"]), Get("usb0")]);
            "wlan0" in m && "usb0" in m && m["wlan0"] == m["usb0"] && !Injective(m)
  {
    var first := NewIndices(["eth0", "wlan0"]);
    assert ["eth0", "wlan0"][..1] == ["eth0"] && ["eth0"][..0] == [];
    assert NewIndices(["eth0"]) == map["eth0" := 0];
    assert first == map["eth0" := 0, "wlan0" := 1];
    var kept := UpdateIndices(first, ["wlan0"]);
    assert ["wlan0"][..0] == [];
    assert kept == map["wlan0" := 1];
    var ops := [Reload(["wlan0"]), Get("usb0")];
    assert ops[1..] == [Get("usb0")] && ops[1..][1..] == [];
    var m := IndexRun(first, ops);
    assert m == AssignIndex(kept, "usb0").0;
    assert m["usb0"] == 1 == m["wlan0"];
  }

  /** Reloads alone do it too: one that drops an interface and one that adds another. */
  lemma DropThenReloadCollides()
    ensures var m := IndexRun(NewIndices(["eth0", "wlan0"]), [Reload(["wlan0"]), Reload(["wlan0", "usb0"])]);
            "wlan0" in m && "usb0" in m && m["wlan0"] == m["usb0"] && !Injective(m)
  {
    var first := NewIndices(["eth0", "wlan0"]);
    assert ["eth0", "wlan0"][..1] == ["eth0"] && ["eth0"][..0] == [];
    assert first == map["eth0" := 0, "wlan0" := 1];
    var kept := UpdateIndices(first, ["wlan0"]);
    assert ["wlan0"][..0] == [];
    assert kept == map["wlan0" := 1];
    var ops := [Reload(["wlan0"]), Reload(["wlan0", "usb0"])];
    assert ops[1..] == [Reload(["wlan0", "usb0"])] && ops[1..][1..] == [];
    assert ["wlan0", "usb0"][..1] == ["wlan0"];
    var m := UpdateIndices(kept, ["wlan0", "usb0"]);
    assert m["wlan0"] == 1 == m["usb0"];
    assert IndexRun(first, ops) == m;
  }
}
