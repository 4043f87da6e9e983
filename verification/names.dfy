/**
 * Unique test names (`lib/names/name.js`, `lib/names/set.js`,
 * `lib/names.js`): a registry hands out, per full title, the ids 0, 1, 2, …
 * so that two tests with the same title can still be told apart.
 */
module Names {
  import opened Js
  import Seqs
  import InsertionMap

  // Name
  // --------------------------------------------------------------------------

  /** A test's name, the names of the groups around it, and its id among equal titles. */
  datatype Name = Name(name: string, prefix: seq<string>, id: int)

  /** `new Name(name, prefix, id)`: the prefix defaults to `[]`, a non-number id to 0. */
  function NewName(name: string, prefix: Option<seq<string>>, id: Option<int>): (r: Name)
    ensures r.name == name
    ensures prefix.None? ==> r.prefix == []
    ensures prefix.Some? ==> r.prefix == prefix.value
    ensures id.None? ==> r.id == 0
    ensures id.Some? ==> r.id == id.value
  {
    Name(name, prefix.GetOr([]), id.GetOr(0))
  }

  /** `fullTitle()`: the prefix and the name, separated by single spaces. */
  function FullTitle(n: Name): (r: string)
    ensures |n.prefix| == 0 ==> r == n.name
    ensures |n.prefix| > 0 ==> r == Join(n.prefix, " ") + " " + n.name
  {
    if |n.prefix| > 0 then LemmaJoinAppend(n.prefix, [n.name], " "); Join(n.prefix + [n.name], " ")
    else assert n.prefix + [n.name] == [n.name]; Join(n.prefix + [n.name], " ")
  }

  /** Strict equality on strings, the comparison `array.equals` applies to prefixes. */
  function StrictEq(a: string, b: string): bool {
    a == b
  }

  /** Comparing prefixes pointwise with strict equality is sequence equality. */
  lemma LemmaPrefixEquals(xs: seq<string>, ys: seq<string>)
    ensures Seqs.Equals1(xs, ys, StrictEq) <==> xs == ys
  {
    if Seqs.Equals1(xs, ys, StrictEq) {
      assert forall i :: 0 <= i < |xs| ==> xs[i] == ys[i];
    }
  }

  /**
   * `equals` as written: the names and the prefixes are compared, but the id
   * test compares the receiver's id with itself, so it always holds.
   */
  function EqualsAsWritten(a: Name, b: Name): (r: bool)
    ensures r <==> a.name == b.name && a.prefix == b.prefix
  {
    LemmaPrefixEquals(a.prefix, b.prefix);
    a.name == b.name && Seqs.Equals1(a.prefix, b.prefix, StrictEq) && a.id == a.id
  }

  /** Two names that differ only in their id are equal under `equals` as written. */
  lemma LemmaIdIgnored()
    ensures EqualsAsWritten(Name("x", [], 0), Name("x", [], 1))
    ensures Name("x", [], 0) != Name("x", [], 1)
  {
  }

  /** `equals` with the id test comparing the two ids: exactly structural equality. */
  function Equals(a: Name, b: Name): (r: bool)
    ensures r <==> a == b
  {
    LemmaPrefixEquals(a.prefix, b.prefix);
    a.name == b.name && Seqs.Equals1(a.prefix, b.prefix, StrictEq) && a.id == b.id
  }

  // NameSet
  // --------------------------------------------------------------------------

  /** The names sharing one full title, in the order their ids were handed out. */
  datatype NameSet = NameSet(names: seq<Name>)

  /** `_greatestId`: the id of the last name, or -1 for an empty set. */
  function GreatestId(s: NameSet): int {
    if |s.names| == 0 then -1 else s.names[|s.names| - 1].id
  }

  /** `getNextId()`: one more than the last id; 0 for an empty set. */
  function NextId(s: NameSet): (r: int)
    ensures |s.names| == 0 ==> r == 0
    ensures |s.names| > 0 ==> r == s.names[|s.names| - 1].id + 1
  {
    GreatestId(s) + 1
  }

  /** `NameSet.empty()`. */
  function EmptySet(): (r: NameSet)
    ensures |r.names| == 0 && NextId(r) == 0
  {
    NameSet([])
  }

  /** `addName(n)`: a new set with `n` last; the next id follows `n`'s. */
  function AddName(s: NameSet, n: Name): (r: NameSet)
    ensures r.names == s.names + [n]
    ensures NextId(r) == n.id + 1
  {
    NameSet(s.names + [n])
  }

  /** The ids are 0, 1, 2, … in order: what a set built only by `createName` holds. */
  ghost predicate Consecutive(s: NameSet) {
    forall i :: 0 <= i < |s.names| ==> s.names[i].id == i
  }

  /** A consecutive set's next id is its size, and adding a name with that id keeps it consecutive. */
  lemma LemmaAddNext(s: NameSet, n: Name)
    requires Consecutive(s) && n.id == NextId(s)
    ensures NextId(s) == |s.names|
    ensures Consecutive(AddName(s, n))
  {
  }

  /** The `map` callback of `concat`: every name with its id moved up by `offset`. */
  function ShiftAll(ns: seq<Name>, offset: int): (r: seq<Name>)
    ensures |r| == |ns|
    ensures forall i :: 0 <= i < |ns| ==> r[i] == Name(ns[i].name, ns[i].prefix, ns[i].id + offset)
    decreases |ns|
  {
    if |ns| == 0 then []
    else [Name(ns[0].name, ns[0].prefix, ns[0].id + offset)] + ShiftAll(ns[1..], offset)
  }

  /**
   * `concat(b)` as written: `lib/names/set.js` never imports `Name`, so
   * building the first shifted name throws a `ReferenceError`; with nothing
   * to shift the callback never runs.
   */
  function ConcatAsWritten(a: NameSet, b: NameSet): (r: Result<NameSet>)
    ensures |b.names| == 0 <==> r.Ok?
    ensures r.Ok? ==> r.value == a
    ensures r.Throws? ==> r.error == Error("Name is not defined")
  {
    if |b.names| == 0 then assert a.names + [] == a.names; Ok(NameSet(a.names + []))
    else Throws(Error("Name is not defined"))
  }

  /** Concatenating a one-name set onto any set throws. */
  lemma LemmaConcatThrows(a: NameSet, n: Name)
    ensures ConcatAsWritten(a, NameSet([n])).Throws?
  {
  }

  /** `concat(b)` with `Name` in scope: `b`'s names follow, their ids moved past this set's greatest. */
  function Concat(a: NameSet, b: NameSet): (r: NameSet)
    ensures |r.names| == |a.names| + |b.names|
    ensures r.names[..|a.names|] == a.names
    ensures forall i :: 0 <= i < |b.names| ==>
      r.names[|a.names| + i] == Name(b.names[i].name, b.names[i].prefix, b.names[i].id + NextId(a))
  {
    var r := NameSet(a.names + ShiftAll(b.names, NextId(a)));
    assert r.names[..|a.names|] == a.names;
    r
  }

  /** Concatenating two consecutive sets gives a consecutive set: ids never repeat. */
  lemma LemmaConcatConsecutive(a: NameSet, b: NameSet)
    requires Consecutive(a) && Consecutive(b)
    ensures Consecutive(Concat(a, b))
  {
    var r := Concat(a, b);
    forall i | 0 <= i < |r.names|
      ensures r.names[i].id == i
    {
      if i < |a.names| {
        assert r.names[i] == r.names[..|a.names|][i];
      } else {
        assert r.names[|a.names| + (i - |a.names|)].id == b.names[i - |a.names|].id + |a.names|;
      }
    }
  }

  /** The empty set is an identity of `concat` on both sides. */
  lemma LemmaConcatIdentity(s: NameSet)
    ensures Concat(EmptySet(), s) == s
    ensures Concat(s, EmptySet()) == s
  {
    assert Concat(EmptySet(), s).names == s.names;
    assert Concat(s, EmptySet()).names == Concat(s, EmptySet()).names[..|s.names|];
  }

  /** The next id after a concatenation adds up the two sets' next ids. */
  lemma LemmaConcatNextId(a: NameSet, b: NameSet)
    ensures NextId(Concat(a, b)) == NextId(a) + NextId(b)
  {
    if |b.names| > 0 {
      var r := Concat(a, b);
      var last := |b.names| - 1;
      assert r.names[|a.names| + last].id == b.names[last].id + NextId(a);
      assert |r.names| - 1 == |a.names| + last;
    }
  }

  /** `concat` is associative, as a semigroup's must be. */
  lemma LemmaConcatAssoc(a: NameSet, b: NameSet, c: NameSet)
    ensures Concat(Concat(a, b), c) == Concat(a, Concat(b, c))
  {
    var sb := ShiftAll(b.names, NextId(a));
    var sc := ShiftAll(c.names, NextId(a) + NextId(b));
    LemmaConcatLeftNested(a, b, c);
    LemmaConcatRightNested(a, b, c);
    Seqs.LemmaAppendAssoc(a.names, sb, sc);
  }

  /** `(a ++ b) ++ c`: `a`, then `b` shifted past `a`, then `c` shifted past both. */
  lemma LemmaConcatLeftNested(a: NameSet, b: NameSet, c: NameSet)
    ensures Concat(Concat(a, b), c).names
      == (a.names + ShiftAll(b.names, NextId(a))) + ShiftAll(c.names, NextId(a) + NextId(b))
  {
    LemmaConcatNextId(a, b);
  }

  /** `a ++ (b ++ c)`: the same three parts, grouped the other way. */
  lemma LemmaConcatRightNested(a: NameSet, b: NameSet, c: NameSet)
    ensures Concat(a, Concat(b, c)).names
      == a.names + (ShiftAll(b.names, NextId(a)) + ShiftAll(c.names, NextId(a) + NextId(b)))
  {
    var bc := Concat(b, c);
    calc {
      Concat(a, bc).names;
      a.names + ShiftAll(bc.names, NextId(a));
      a.names + ShiftAll(b.names + ShiftAll(c.names, NextId(b)), NextId(a));
      { LemmaShiftAppend(b.names, ShiftAll(c.names, NextId(b)), NextId(a)); }
      a.names + (ShiftAll(b.names, NextId(a)) + ShiftAll(ShiftAll(c.names, NextId(b)), NextId(a)));
      { LemmaShiftTwice(c.names, NextId(b), NextId(a)); }
      a.names + (ShiftAll(b.names, NextId(a)) + ShiftAll(c.names, NextId(a) + NextId(b)));
    }
  }

  /** Shifting a concatenation shifts each part. */
  lemma LemmaShiftAppend(xs: seq<Name>, ys: seq<Name>, offset: int)
    ensures ShiftAll(xs + ys, offset) == ShiftAll(xs, offset) + ShiftAll(ys, offset)
  {
    var l := ShiftAll(xs + ys, offset);
    var r := ShiftAll(xs, offset) + ShiftAll(ys, offset);
    forall i | 0 <= i < |l|
      ensures l[i] == r[i]
    {
      if i >= |xs| {
        assert (xs + ys)[i] == ys[i - |xs|];
      }
    }
  }

  /** Two shifts add up. */
  lemma LemmaShiftTwice(xs: seq<Name>, first: int, second: int)
    ensures ShiftAll(ShiftAll(xs, first), second) == ShiftAll(xs, second + first)
  {
    var l := ShiftAll(ShiftAll(xs, first), second);
    assert forall i :: 0 <= i < |l| ==> l[i] == ShiftAll(xs, second + first)[i];
  }

  // Names
  // --------------------------------------------------------------------------

  /** The registry of sets by full title, and every name handed out, in order. */
  datatype Names = Names(registry: InsertionMap.JsMap<string, NameSet>, names: seq<Name>)

  /** `Names.empty()`. */
  function Empty(): (r: Names)
    ensures |r.names| == 0 && |r.registry.values| == 0
  {
    Names(InsertionMap.Empty(), [])
  }

  /** `registry.get(key) || NameSet.empty()`. */
  function SetFor(ns: Names, key: string): (r: NameSet)
    ensures key in ns.registry.values ==> r == ns.registry.values[key]
    ensures key !in ns.registry.values ==> r == EmptySet()
  {
    if key in ns.registry.values then ns.registry.values[key] else EmptySet()
  }

  /**
   * `createName(name, prefix)`: the new name takes the next id of the set
   * stored under its full title, that set grows by the new name, and the
   * name is appended to the list.
   */
  function CreateName(ns: Names, name: string, prefix: Option<seq<string>>): (r: (Names, Name))
    requires InsertionMap.Valid(ns.registry)
    ensures InsertionMap.Valid(r.0.registry)
    ensures r.1.name == name && r.1.prefix == prefix.GetOr([])
    ensures FullTitle(r.1) !in ns.registry.values ==> r.1.id == 0
    ensures FullTitle(r.1) in ns.registry.values ==> r.1.id == NextId(ns.registry.values[FullTitle(r.1)])
    ensures FullTitle(r.1) in r.0.registry.values
    ensures r.0.registry.values[FullTitle(r.1)].names == SetFor(ns, FullTitle(r.1)).names + [r.1]
    ensures NextId(r.0.registry.values[FullTitle(r.1)]) == r.1.id + 1
    ensures forall k :: k != FullTitle(r.1) ==>
      (k in r.0.registry.values <==> k in ns.registry.values)
    ensures forall k :: k != FullTitle(r.1) && k in ns.registry.values ==>
      r.0.registry.values[k] == ns.registry.values[k]
    ensures r.0.names == ns.names + [r.1]
  {
    var p := prefix.GetOr([]);
    var key := Join(p + [name], " ");
    var s := SetFor(ns, key);
    var n := NewName(name, Some(p), Some(NextId(s)));
    (Names(InsertionMap.Put(ns.registry, key, AddName(s, n)), ns.names + [n]), n)
  }

  /**
   * What `createName` keeps true: the registry is a well-formed map, every
   * set holds the ids 0, 1, 2, … of names with its title, every handed-out
   * name's id is below its title's next id, and no (title, id) pair repeats.
   */
  ghost predicate Registered(ns: Names) {
    && InsertionMap.Valid(ns.registry)
    && (forall k :: k in ns.registry.values ==> Consecutive(ns.registry.values[k]))
    && (forall k, i :: k in ns.registry.values && 0 <= i < |ns.registry.values[k].names| ==>
          FullTitle(ns.registry.values[k].names[i]) == k)
    && (forall i :: 0 <= i < |ns.names| ==>
          && FullTitle(ns.names[i]) in ns.registry.values
          && 0 <= ns.names[i].id < NextId(ns.registry.values[FullTitle(ns.names[i])]))
    && Unique(ns.names)
  }

  /** No two entries share both their full title and their id. */
  ghost predicate Unique(names: seq<Name>) {
    forall i, j :: 0 <= i < j < |names| && FullTitle(names[i]) == FullTitle(names[j]) ==>
      names[i].id != names[j].id
  }

  /** An empty registry is registered. */
  lemma LemmaEmptyRegistered()
    ensures Registered(Empty())
  {
  }

  /** `createName` keeps a registry registered. */
  lemma LemmaCreateNameRegistered(ns: Names, name: string, prefix: Option<seq<string>>)
    requires Registered(ns)
    ensures Registered(CreateName(ns, name, prefix).0)
  {
    var (ns', n) := CreateName(ns, name, prefix);
    var key := FullTitle(n);
    var s := SetFor(ns, key);
    LemmaAddNext(s, n);
    var reg, reg' := ns.registry.values, ns'.registry.values;
    forall k, i | k in reg' && 0 <= i < |reg'[k].names|
      ensures FullTitle(reg'[k].names[i]) == k
    {
      if k == key && i < |s.names| {
        assert reg'[k].names[i] == s.names[i];
      }
    }
    forall i | 0 <= i < |ns'.names|
      ensures FullTitle(ns'.names[i]) in reg'
      ensures 0 <= ns'.names[i].id < NextId(reg'[FullTitle(ns'.names[i])])
    {
      if i < |ns.names| {
        assert ns'.names[i] == ns.names[i];
      }
    }
    forall i, j | 0 <= i < j < |ns'.names| && FullTitle(ns'.names[i]) == FullTitle(ns'.names[j])
      ensures ns'.names[i].id != ns'.names[j].id
    {
      if j < |ns.names| {
        assert ns'.names[i] == ns.names[i] && ns'.names[j] == ns.names[j];
      } else {
        assert ns'.names[i] == ns.names[i];
      }
    }
  }

  /** Creating a title that is already registered with `k` names gives it id `k`. */
  lemma LemmaCreateNameCounts(ns: Names, name: string, prefix: Option<seq<string>>)
    requires Registered(ns)
    ensures CreateName(ns, name, prefix).1.id == |SetFor(ns, Join(prefix.GetOr([]) + [name], " ")).names|
  {
    var n := CreateName(ns, name, prefix).1;
    var s := SetFor(ns, FullTitle(n));
    LemmaAddNext(s, n);
  }

  /** Creating the same title three times in a fresh registry gives the ids 0, 1 and 2. */
  lemma LemmaRepeatedTitle(name: string)
    ensures CreateName(Empty(), name, None).1.id == 0
    ensures CreateName(CreateName(Empty(), name, None).0, name, None).1.id == 1
    ensures CreateName(CreateName(CreateName(Empty(), name, None).0, name, None).0, name, None).1.id == 2
  {
    var (a, n0) := CreateName(Empty(), name, None);
    var key := FullTitle(n0);
    assert NextId(a.registry.values[key]) == 1;
    var (b, n1) := CreateName(a, name, None);
    assert FullTitle(n1) == key;
    assert NextId(b.registry.values[key]) == 2;
    var (c, n2) := CreateName(b, name, None);
    assert FullTitle(n2) == key;
  }

  /** `concat(b)`: the registries merged, `a`'s set winning on a shared title, and the name lists appended. */
  function RegistryConcat(a: Names, b: Names): (r: Names)
    requires InsertionMap.Valid(a.registry) && InsertionMap.Valid(b.registry)
    ensures InsertionMap.Valid(r.registry)
    ensures forall k :: k in r.registry.values <==> k in a.registry.values || k in b.registry.values
    ensures forall k :: k in a.registry.values ==> r.registry.values[k] == a.registry.values[k]
    ensures forall k :: k !in a.registry.values && k in b.registry.values ==> r.registry.values[k] == b.registry.values[k]
    ensures r.names == a.names + b.names
  {
    InsertionMap.LemmaConcatLeftBiased(a.registry, b.registry);
    Names(InsertionMap.Concat(a.registry, b.registry), a.names + b.names)
  }

  /**
   * `concat` does not keep names unique: two registries that each created
   * the same title once yield the pair (title, 0) twice.
   */
  lemma LemmaConcatRepeatsNames(name: string)
    ensures Registered(CreateName(Empty(), name, None).0)
    ensures !Unique(RegistryConcat(CreateName(Empty(), name, None).0, CreateName(Empty(), name, None).0).names)
  {
    var r := CreateName(Empty(), name, None);
    assert Registered(r.0) by {
      LemmaEmptyRegistered();
      LemmaCreateNameRegistered(Empty(), name, None);
    }
    assert r.0.names == [r.1] by {
      assert Empty().names == [];
    }
    var c := RegistryConcat(r.0, r.0);
    assert c.names == [r.1, r.1];
    assert c.names[0] == c.names[1];
  }
}
