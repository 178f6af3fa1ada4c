/** The object-lifetime protocol of `ProtoValue`: a hand-written virtual table over raw storage.

    Memory is a set of addresses.  An address is raw, or it holds a live object of one kind.  The
    three operations a virtual table offers have what C++ demands of their callers as
    preconditions, so every call below is proved to construct into raw storage and to read and
    destroy live objects through the table of their own kind.  The elements of a list or struct
    are part of its value here, not objects with addresses; a path leads to them. */
module ProtoLifetime {
  import opened ProtoValues

  type Address = nat

  type Objects = map<Address, ProtoValue>

  /** One statement of a program over values. */
  datatype Instruction =
    | Construct(at: Address, v: ProtoValue)
    | CopyConstruct(at: Address, source: Address)
    | MoveConstruct(at: Address, source: Address)
    | CopyAssign(at: Address, source: Address)
    | MoveAssign(at: Address, source: Address)
    | Swap(at: Address, other: Address)
    | Destroy(at: Address)

  // ----- what each statement means for the values

  /** What the language demands: constructors get unused storage, everything else live values. */
  predicate Legal(live: set<Address>, i: Instruction) {
    match i
    case Construct(at, _) => at !in live
    case CopyConstruct(at, source) => at !in live && source in live
    case MoveConstruct(at, source) => at !in live && source in live
    case CopyAssign(at, source) => at in live && source in live
    case MoveAssign(at, source) => at in live && source in live
    case Swap(at, other) => at in live && other in live
    case Destroy(at) => at in live
  }

  function LiveAfter(live: set<Address>, i: Instruction): set<Address> {
    match i
    case Construct(at, _) => live + {at}
    case CopyConstruct(at, _) => live + {at}
    case MoveConstruct(at, _) => live + {at}
    case Destroy(at) => live - {at}
    case _ => live
  }

  /** `m'` is `m` but for `at`, which has the value `source` had, and for `source` itself, which
      keeps its kind but may hold anything. */
  ghost predicate MovedInto(m: Objects, at: Address, source: Address, m': Objects)
    requires source in m
  {
    && m'.Keys == m.Keys + {at}
    && m'[at] == m[source]
    && (source != at ==> KindOf(m'[source]) == KindOf(m[source]))
    && forall a :: a in m && a != at && a != source ==> m'[a] == m[a]
  }

  /** `m'` is `m` with the values at two addresses exchanged. */
  ghost predicate Swapped(m: Objects, a: Address, b: Address, m': Objects)
    requires a in m && b in m
  {
    m'.Keys == m.Keys && m'[a] == m[b] && m'[b] == m[a] && forall c :: c in m && c != a && c != b ==> m'[c] == m[c]
  }

  ghost predicate Step(m: Objects, i: Instruction, m': Objects)
    requires Legal(m.Keys, i)
  {
    match i
    case Construct(at, v) => m' == m[at := v]
    case CopyConstruct(at, source) => m' == m[at := m[source]]
    case MoveConstruct(at, source) => MovedInto(m, at, source, m')
    case CopyAssign(at, source) => m' == m[at := m[source]]
    case MoveAssign(at, source) => MovedInto(m, at, source, m')
    case Swap(at, other) => Swapped(m, at, other, m')
    case Destroy(at) => m' == m - {at}
  }

  predicate LegalProgram(live: set<Address>, program: seq<Instruction>)
    decreases program
  {
    program == [] || (Legal(live, program[0]) && LegalProgram(LiveAfter(live, program[0]), program[1..]))
  }

  function LiveAfterAll(live: set<Address>, program: seq<Instruction>): set<Address>
    decreases program
  {
    if program == [] then live else LiveAfterAll(LiveAfter(live, program[0]), program[1..])
  }

  /** `m'` can result from running `program` on `m`. */
  ghost predicate Runs(m: Objects, program: seq<Instruction>, m': Objects)
    requires LegalProgram(m.Keys, program)
    decreases program
  {
    if program == [] then m' == m
    else
      exists mid :: Step(m, program[0], mid) && mid.Keys == LiveAfter(m.Keys, program[0]) && Runs(mid, program[1..], m')
  }

  // ----- what programs can rely on

  /** The addresses whose value a statement may change; copying does not change its source. */
  function Touched(i: Instruction): set<Address> {
    match i
    case Construct(at, _) => {at}
    case CopyConstruct(at, _) => {at}
    case MoveConstruct(at, source) => {at, source}
    case CopyAssign(at, _) => {at}
    case MoveAssign(at, source) => {at, source}
    case Swap(at, other) => {at, other}
    case Destroy(at) => {at}
  }

  /** In every run, a value keeps what it holds until a statement names it as its target, moves
      from it, swaps it or destroys it. */
  lemma {:induction false} UntouchedStays(m: Objects, program: seq<Instruction>, m': Objects, a: Address)
    requires LegalProgram(m.Keys, program) && Runs(m, program, m')
    requires a in m && forall i :: i in program ==> a !in Touched(i)
    ensures a in m' && m'[a] == m[a]
    decreases program
  {
    if program != [] {
      var mid :| Step(m, program[0], mid) && mid.Keys == LiveAfter(m.Keys, program[0]) && Runs(mid, program[1..], m');
      assert program[0] in program;
      UntouchedStays(mid, program[1..], m', a);
    }
  }

  /** The values live at the end are those the program's constructions and destructions leave. */
  lemma {:induction false} RunLive(m: Objects, program: seq<Instruction>, m': Objects)
    requires LegalProgram(m.Keys, program) && Runs(m, program, m')
    ensures m'.Keys == LiveAfterAll(m.Keys, program)
    decreases program
  {
    if program != [] {
      var mid :| Step(m, program[0], mid) && mid.Keys == LiveAfter(m.Keys, program[0]) && Runs(mid, program[1..], m');
      RunLive(mid, program[1..], m');
    }
  }

  /** What each statement leaves at the addresses it names.  Copying leaves both with what the source
      held; moving leaves the target with it and the source with something of its kind. */
  lemma StatementMeaning(m: Objects, a: Address, b: Address, v: ProtoValue, m': Objects)
    ensures Legal(m.Keys, Construct(a, v)) && Step(m, Construct(a, v), m') ==> a in m' && m'[a] == v
    ensures Legal(m.Keys, CopyConstruct(a, b)) && Step(m, CopyConstruct(a, b), m') ==>
      a in m' && b in m' && m'[a] == m'[b] == m[b]
    ensures Legal(m.Keys, CopyAssign(a, b)) && Step(m, CopyAssign(a, b), m') ==>
      a in m' && b in m' && m'[a] == m'[b] == m[b]
    ensures Legal(m.Keys, MoveConstruct(a, b)) && Step(m, MoveConstruct(a, b), m') ==>
      a in m' && b in m' && m'[a] == m[b] && KindOf(m'[b]) == KindOf(m[b])
    ensures Legal(m.Keys, MoveAssign(a, b)) && Step(m, MoveAssign(a, b), m') ==>
      a in m' && b in m' && m'[a] == m[b] && KindOf(m'[b]) == KindOf(m[b])
    ensures Legal(m.Keys, Swap(a, b)) && Step(m, Swap(a, b), m') ==>
      a in m' && b in m' && m'[a] == m[b] && m'[b] == m[a]
    ensures Legal(m.Keys, Destroy(a)) && Step(m, Destroy(a), m') ==> a !in m'
  {
  }

  /** Assigning a value to itself, by copy or by move, changes nothing. */
  lemma SelfAssignment(m: Objects, a: Address, i: Instruction, m': Objects)
    requires a in m && i in {CopyAssign(a, a), MoveAssign(a, a)}
    requires Step(m, i, m')
    ensures m' == m
  {
    assert m'.Keys == m.Keys;
  }

  /** Moving a value out and back restores it, whatever the moves left behind. */
  lemma MoveOutAndBack(m: Objects, a: Address, tmp: Address, m1: Objects, m2: Objects, m': Objects)
    requires a in m && tmp !in m
    requires Step(m, MoveConstruct(tmp, a), m1)
    requires Step(m1, MoveAssign(a, tmp), m2)
    requires Step(m2, Destroy(tmp), m')
    ensures m' == m
  {
    assert m'.Keys == m.Keys;
  }

  // ----- elements of lists and structs

  function WithChild(v: ProtoValue, s: Selector, w: ProtoValue): ProtoValue
    requires HasChild(v, s)
  {
    match s
    case Element(i) => List(v.elements[i := w])
    case Field(key) => Struct(v.fields[key := w])
  }

  function WithPart(v: ProtoValue, path: seq<Selector>, w: ProtoValue): ProtoValue
    requires HasPart(v, path)
    decreases path
  {
    if path == [] then w else WithChild(v, path[0], WithPart(Child(v, path[0]), path[1..], w))
  }

  /** Replacing a part by a value of its kind leaves that value there, and keeps the kind of the
      whole. */
  lemma {:induction false} WithPartMeaning(v: ProtoValue, path: seq<Selector>, w: ProtoValue)
    requires HasPart(v, path) && KindOf(w) == KindOf(PartOf(v, path))
    ensures HasPart(WithPart(v, path, w), path) && PartOf(WithPart(v, path, w), path) == w
    ensures KindOf(WithPart(v, path, w)) == KindOf(v)
    decreases path
  {
    if path != [] {
      WithPartMeaning(Child(v, path[0]), path[1..], w);
    }
  }

  /** `v'` is `v` with the part at `path` moved from: something of its kind is left there. */
  ghost predicate PartMovedFrom(v: ProtoValue, path: seq<Selector>, v': ProtoValue)
    requires HasPart(v, path)
  {
    exists leftover :: KindOf(leftover) == KindOf(PartOf(v, path)) && v' == WithPart(v, path, leftover)
  }

  /** `m'` is `m` but for `at`, which has what the part was, and for the value the part belongs to,
      which had it moved from.  If that is the target itself, nothing is left of the rest. */
  ghost predicate PartMovedInto(m: Objects, at: Address, source: Address, path: seq<Selector>, m': Objects)
    requires source in m && HasPart(m[source], path)
  {
    && m'.Keys == m.Keys + {at}
    && m'[at] == PartOf(m[source], path)
    && (source != at ==> PartMovedFrom(m[source], path, m'[source]))
    && forall a :: a in m && a != at && a != source ==> m'[a] == m[a]
  }

  /** Assigning a value from one of its own elements, however deep, by move: the value becomes what
      the element was, and all else stays. */
  lemma OwnElement(m: Objects, at: Address, path: seq<Selector>, m': Objects)
    requires at in m && HasPart(m[at], path) && PartMovedInto(m, at, at, path, m')
    ensures m' == m[at := PartOf(m[at], path)]
  {
    assert m'.Keys == m.Keys;
  }

  /** Moving a whole value is moving its part at the empty path. */
  lemma WholeIsPart(m: Objects, at: Address, source: Address, m': Objects)
    requires source in m
    ensures PartMovedInto(m, at, source, [], m') <==> MovedInto(m, at, source, m')
  {
    if source in m' && KindOf(m'[source]) == KindOf(m[source]) {
      assert m'[source] == WithPart(m[source], [], m'[source]);
    }
  }

  function PartMovedOut(m: Objects, at: Address, source: Address, path: seq<Selector>, leftover: ProtoValue): Objects
    requires source in m && HasPart(m[source], path)
  {
    m[at := PartOf(m[source], path)][source := WithPart(m[source], path, leftover)]
  }

  /** Constructing from a part and leaving something of its kind there moves from it. */
  lemma LeaveBehind(
    vtables: map<Address, Kind>, m: Objects, at: Address, source: Address, path: seq<Selector>, leftover: ProtoValue)
    requires Tabled(vtables, m) && at !in m && source in m && HasPart(m[source], path)
    requires KindOf(leftover) == KindOf(PartOf(m[source], path))
    ensures var part := PartOf(m[source], path);
      var m' := PartMovedOut(m, at, source, path, leftover);
      Tabled(vtables[at := KindOf(part)], m') && PartMovedInto(m, at, source, path, m') && |m'| == |m| + 1
  {
    WithPartMeaning(m[source], path, leftover);
    var m' := PartMovedOut(m, at, source, path, leftover);
    assert m'.Keys == m.Keys + {at};
  }

  lemma PartMoveSwapDestroy(
    m: Objects, at: Address, source: Address, path: seq<Selector>, tmp: Address, m1: Objects, m2: Objects, m3: Objects)
    requires at in m && source in m && tmp !in m && HasPart(m[source], path)
    requires PartMovedInto(m, tmp, source, path, m1) && Swapped(m1, tmp, at, m2) && m3 == m2 - {tmp}
    ensures PartMovedInto(m, at, source, path, m3)
  {
    assert m3.Keys == m.Keys;
  }

  lemma {:induction false} AboveAll(used: set<Address>) returns (bound: Address)
    ensures forall a :: a in used ==> a < bound
  {
    if used == {} {
      bound := 0;
    } else {
      var a :| a in used;
      var rest := AboveAll(used - {a});
      bound := if a < rest then rest else a + 1;
      forall b | b in used ensures b < bound {
        assert b == a || b in used - {a};
      }
    }
  }

  /** `m'` is `m` with the value at `source` living at `dest` instead. */
  ghost predicate Relocated(m: Objects, source: Address, dest: Address, m': Objects)
    requires source in m && dest !in m
  {
    && m'.Keys == m.Keys - {source} + {dest}
    && m'[dest] == m[source]
    && forall a :: a in m && a != source ==> m'[a] == m[a]
  }

  /** Relocating around a temporary exchanges two values. */
  lemma ThreeRelocationsSwap(m: Objects, a: Address, b: Address, tmp: Address, m1: Objects, m2: Objects, m3: Objects)
    requires a in m && b in m && a != b && tmp !in m
    requires Relocated(m, b, tmp, m1) && Relocated(m1, a, b, m2) && Relocated(m2, tmp, a, m3)
    ensures Swapped(m, a, b, m3)
  {
    assert m3.Keys == m.Keys;
  }

  /** Moving into a temporary, swapping it with the target and destroying it moves into the target,
      which may be the source. */
  lemma MoveSwapDestroy(m: Objects, at: Address, source: Address, tmp: Address, m1: Objects, m2: Objects, m3: Objects)
    requires at in m && source in m && tmp !in m
    requires MovedInto(m, tmp, source, m1) && Swapped(m1, tmp, at, m2) && m3 == m2 - {tmp}
    ensures MovedInto(m, at, source, m3)
    ensures m3.Keys == m.Keys
  {
    assert m3.Keys == m.Keys;
  }

  lemma CopySwapDestroy(m: Objects, at: Address, v: ProtoValue, tmp: Address, m1: Objects, m2: Objects, m3: Objects)
    requires at in m && tmp !in m
    requires m1 == m[tmp := v] && Swapped(m1, tmp, at, m2) && m3 == m2 - {tmp}
    ensures m3 == m[at := v]
  {
    assert m3.Keys == m.Keys;
  }

  /** Every value has a table, and it is for the kind of object in its storage. */
  ghost predicate Tabled(vtables: map<Address, Kind>, m: Objects) {
    vtables.Keys == m.Keys && forall a :: a in vtables ==> vtables[a] == KindOf(m[a])
  }

  lemma SwappedTables(vtables: map<Address, Kind>, m: Objects, a: Address, b: Address, m': Objects)
    requires Tabled(vtables, m) && a in m && b in m && Swapped(m, a, b, m')
    ensures Tabled(vtables[a := vtables[b]][b := vtables[a]], m')
  {
  }

  // ----- the implementation

  class Memory {
    /** The live objects, the storage of every value among them. */
    var objects: Objects
    /** The virtual table of each value, as the kind it is for. */
    var vtables: map<Address, Kind>
    ghost var constructed: nat
    ghost var destroyed: nat

    /** Every object ever constructed is live or was destroyed. */
    ghost predicate Counted()
      reads this
    {
      constructed == destroyed + |objects|
    }

    /** Every table matches its object, and no object is without one. */
    ghost predicate Valid()
      reads this
    {
      Counted() && Tabled(vtables, objects)
    }

    constructor ()
      ensures Valid() && objects == map[]
    {
      objects, vtables := map[], map[];
      constructed, destroyed := 0, 0;
    }

    // the virtual table's operations

    method VtableCopy(kind: Kind, source: Address, dest: Address)
      requires Counted()
      requires source in objects && KindOf(objects[source]) == kind && dest !in objects
      modifies this
      ensures Counted() && vtables == old(vtables)
      ensures objects == old(objects)[dest := old(objects)[source]]
    {
      assert objects[dest := objects[source]].Keys == objects.Keys + {dest};
      objects := objects[dest := objects[source]];
      constructed := constructed + 1;
    }

    /** `leftover` is what the library leaves in a moved-from object. */
    method VtableMove(kind: Kind, source: Address, dest: Address, leftover: ProtoValue)
      requires Counted()
      requires source in objects && KindOf(objects[source]) == kind && dest !in objects
      requires KindOf(leftover) == kind
      modifies this
      ensures Counted() && vtables == old(vtables)
      ensures objects == old(objects)[dest := old(objects)[source]][source := leftover]
    {
      assert objects[dest := objects[source]][source := leftover].Keys == objects.Keys + {dest};
      objects := objects[dest := objects[source]][source := leftover];
      constructed := constructed + 1;
    }

    method VtableDtor(kind: Kind, at: Address)
      requires Counted()
      requires at in objects && KindOf(objects[at]) == kind
      modifies this
      ensures Counted() && vtables == old(vtables)
      ensures objects == old(objects) - {at}
    {
      assert (objects - {at}).Keys == objects.Keys - {at};
      objects := objects - {at};
      destroyed := destroyed + 1;
    }

    /** What a moved-from object of a kind happens to hold. */
    method Leftover(kind: Kind) returns (v: ProtoValue)
      ensures KindOf(v) == kind
    {
      v := *;
      if KindOf(v) != kind {
        match kind
        case KNull => v := Null;
        case KBool => v := Bool(false);
        case KDouble => v := Double(0.0);
        case KString => v := String("");
        case KList => v := List([]);
        case KStruct => v := Struct(map[]);
      }
    }

    /** Storage for a local variable: any unused address. */
    method FreshAddress() returns (a: Address)
      ensures a !in objects && a !in vtables
    {
      var used := objects.Keys + vtables.Keys;
      ghost var bound := AboveAll(used);
      assert bound !in used;
      a :| a !in used;
    }

    // the members of ProtoValue and of its storage

    method ConstructValue(at: Address, v: ProtoValue)
      requires Valid() && Legal(objects.Keys, Construct(at, v))
      modifies this
      ensures Valid() && Step(old(objects), Construct(at, v), objects)
    {
      vtables := vtables[at := KindOf(v)];
      assert objects[at := v].Keys == objects.Keys + {at};
      objects := objects[at := v];
      constructed := constructed + 1;
    }

    method CopyConstructValue(at: Address, source: Address)
      requires Valid() && Legal(objects.Keys, CopyConstruct(at, source))
      modifies this
      ensures Valid() && Step(old(objects), CopyConstruct(at, source), objects)
    {
      vtables := vtables[at := vtables[source]];
      VtableCopy(vtables[source], source, at);
    }

    method MoveConstructValue(at: Address, source: Address)
      requires Valid() && Legal(objects.Keys, MoveConstruct(at, source))
      modifies this
      ensures Valid() && Step(old(objects), MoveConstruct(at, source), objects)
    {
      vtables := vtables[at := vtables[source]];
      var leftover := Leftover(vtables[at]);
      VtableMove(vtables[at], source, at, leftover);
    }

    /** Moves an object into raw storage and destroys what is left of it. */
    method Relocate(kind: Kind, source: Address, dest: Address)
      requires Counted()
      requires source in objects && KindOf(objects[source]) == kind && dest !in objects
      modifies this
      ensures Counted() && vtables == old(vtables)
      ensures Relocated(old(objects), source, dest, objects)
    {
      var leftover := Leftover(kind);
      VtableMove(kind, source, dest, leftover);
      VtableDtor(kind, source);
    }

    method SwapStorage(thisVtable: Kind, self: Address, otherVtable: Kind, other: Address)
      requires Counted()
      requires self in objects && KindOf(objects[self]) == thisVtable
      requires other in objects && KindOf(objects[other]) == otherVtable
      modifies this
      ensures Counted() && vtables == old(vtables)
      ensures Swapped(old(objects), self, other, objects)
    {
      if self == other {
        return;
      }
      var tmp := FreshAddress();
      ghost var m := objects;
      Relocate(otherVtable, other, tmp);
      ghost var m1 := objects;
      Relocate(thisVtable, self, other);
      ghost var m2 := objects;
      Relocate(otherVtable, tmp, self);
      ThreeRelocationsSwap(m, self, other, tmp, m1, m2, objects);
    }

    method SwapValue(self: Address, other: Address)
      requires Valid() && Legal(objects.Keys, Swap(self, other))
      modifies this
      ensures Valid() && Step(old(objects), Swap(self, other), objects)
    {
      ghost var m := objects;
      SwapStorage(vtables[self], self, vtables[other], other);
      SwappedTables(vtables, m, self, other, objects);
      vtables := vtables[self := vtables[other]][other := vtables[self]];
    }

    method DestroyValue(at: Address)
      requires Valid() && Legal(objects.Keys, Destroy(at))
      modifies this
      ensures Valid() && Step(old(objects), Destroy(at), objects)
    {
      VtableDtor(vtables[at], at);
      vtables := vtables - {at};
    }

    /** Copy, swap, and destroy the copy; the source may be the target. */
    method CopyAssignValue(at: Address, source: Address)
      requires Valid() && Legal(objects.Keys, CopyAssign(at, source))
      modifies this
      ensures Valid() && Step(old(objects), CopyAssign(at, source), objects)
    {
      ghost var m := objects;
      var tmp := FreshAddress();
      CopyConstructValue(tmp, source);
      ghost var m1 := objects;
      SwapValue(tmp, at);
      ghost var m2 := objects;
      DestroyValue(tmp);
      CopySwapDestroy(m, at, m[source], tmp, m1, m2, objects);
    }

    method MoveAssignValue(at: Address, source: Address)
      requires Valid() && Legal(objects.Keys, MoveAssign(at, source))
      modifies this
      ensures Valid() && Step(old(objects), MoveAssign(at, source), objects)
    {
      ghost var m := objects;
      var tmp := FreshAddress();
      MoveConstructValue(tmp, source);
      ghost var m1 := objects;
      SwapValue(tmp, at);
      ghost var m2 := objects;
      DestroyValue(tmp);
      MoveSwapDestroy(m, at, source, tmp, m1, m2, objects);
    }

    // the same with an element of a list or struct as the source

    method CopyConstructPart(at: Address, source: Address, path: seq<Selector>)
      requires Valid() && at !in objects && source in objects && HasPart(objects[source], path)
      modifies this
      ensures Valid() && objects == old(objects)[at := PartOf(old(objects)[source], path)]
    {
      ConstructValue(at, PartOf(objects[source], path));
    }

    method MoveConstructPart(at: Address, source: Address, path: seq<Selector>)
      requires Valid() && at !in objects && source in objects && HasPart(objects[source], path)
      modifies this
      ensures Valid() && PartMovedInto(old(objects), at, source, path, objects)
    {
      var part := PartOf(objects[source], path);
      var leftover := Leftover(KindOf(part));
      LeaveBehind(vtables, objects, at, source, path, leftover);
      vtables := vtables[at := KindOf(part)];
      objects := PartMovedOut(objects, at, source, path, leftover);
      constructed := constructed + 1;
    }

    /** The copy is made before the target's old value, of which the source may be a part, goes. */
    method CopyAssignPart(at: Address, source: Address, path: seq<Selector>)
      requires Valid() && at in objects && source in objects && HasPart(objects[source], path)
      modifies this
      ensures Valid() && objects == old(objects)[at := PartOf(old(objects)[source], path)]
    {
      ghost var m := objects;
      var tmp := FreshAddress();
      CopyConstructPart(tmp, source, path);
      ghost var m1 := objects;
      SwapValue(tmp, at);
      ghost var m2 := objects;
      DestroyValue(tmp);
      CopySwapDestroy(m, at, PartOf(m[source], path), tmp, m1, m2, objects);
    }

    method MoveAssignPart(at: Address, source: Address, path: seq<Selector>)
      requires Valid() && at in objects && source in objects && HasPart(objects[source], path)
      modifies this
      ensures Valid() && PartMovedInto(old(objects), at, source, path, objects)
      ensures source == at ==> objects == old(objects)[at := PartOf(old(objects)[at], path)]
    {
      ghost var m := objects;
      var tmp := FreshAddress();
      MoveConstructPart(tmp, source, path);
      ghost var m1 := objects;
      SwapValue(tmp, at);
      ghost var m2 := objects;
      DestroyValue(tmp);
      PartMoveSwapDestroy(m, at, source, path, tmp, m1, m2, objects);
      if source == at {
        OwnElement(m, at, path, objects);
      }
    }

    method Execute(i: Instruction)
      requires Valid() && Legal(objects.Keys, i)
      modifies this
      ensures Valid() && Step(old(objects), i, objects)
      ensures objects.Keys == LiveAfter(old(objects).Keys, i)
    {
      match i
      case Construct(at, v) => ConstructValue(at, v);
      case CopyConstruct(at, source) => CopyConstructValue(at, source);
      case MoveConstruct(at, source) => MoveConstructValue(at, source);
      case CopyAssign(at, source) => CopyAssignValue(at, source);
      case MoveAssign(at, source) => MoveAssignValue(at, source);
      case Swap(at, other) => SwapValue(at, other);
      case Destroy(at) => DestroyValue(at);
    }

    /** Any legal program runs to its end with every table matching its object, every object
        accounted for, and the values its statements say. */
    method Run(program: seq<Instruction>)
      requires Valid() && LegalProgram(objects.Keys, program)
      modifies this
      ensures Valid() && Runs(old(objects), program, objects)
      ensures constructed - destroyed == |LiveAfterAll(old(objects).Keys, program)|
      decreases program
    {
      if program != [] {
        Execute(program[0]);
        Run(program[1..]);
      }
    }
  }
}
