/** Evaluating a JSON Pointer on a tree (RFC 6901, section 4): getting, creating and erasing what it points at.
    A place in a tree is the path of child positions that leads to it. */
module PointerEval {
  import opened Ascii
  import opened JsonTree
  import opened PointerText
  import opened Texts
  import opened Wrappers

  type Path = seq<nat>

  /** The name that stands for the element past the last. */
  const PAST_LAST: Name := [DASH]

  // ----- places in a tree

  function ChildCount(v: Tree): nat {
    match v
    case ArrayValue(elements) => |elements|
    case ObjectValue(members) => |members|
    case _ => 0
  }

  function Child(v: Tree, k: nat): Tree
    requires k < ChildCount(v)
  {
    match v
    case ArrayValue(elements) => elements[k]
    case ObjectValue(members) => members[k].value
  }

  function WithChild(v: Tree, k: nat, child: Tree): (w: Tree)
    requires k < ChildCount(v)
    ensures ChildCount(w) == ChildCount(v) && Child(w, k) == child
    ensures forall j: nat | j < ChildCount(v) && j != k :: Child(w, j) == Child(v, j)
  {
    match v
    case ArrayValue(elements) => ArrayValue(elements[k := child])
    case ObjectValue(members) => ObjectValue(members[k := Member(members[k].name, child)])
  }

  predicate HasPath(v: Tree, path: Path) {
    path == [] || (path[0] < ChildCount(v) && HasPath(Child(v, path[0]), path[1..]))
  }

  function Sub(v: Tree, path: Path): Tree
    requires HasPath(v, path)
  {
    if path == [] then v else Sub(Child(v, path[0]), path[1..])
  }

  /** The tree with the value at a place replaced. */
  function Plug(v: Tree, path: Path, new': Tree): Tree
    requires HasPath(v, path)
  {
    if path == [] then new' else WithChild(v, path[0], Plug(Child(v, path[0]), path[1..], new'))
  }

  // ----- what the operations mean

  /** The position of the first member of a name, or the number of members. */
  function Position(members: seq<Member>, name: Name): (k: nat)
    ensures k <= |members|
    ensures forall j | 0 <= j < k :: members[j].name != name
    ensures k < |members| ==> members[k].name == name
  {
    if members == [] || members[0].name == name then 0 else 1 + Position(members[1..], name)
  }

  /** The child a name selects, if there is one. */
  function Select(v: Tree, name: Name): (k: Option<nat>)
    ensures k.Some? ==> k.value < ChildCount(v)
  {
    match v
    case ObjectValue(members) => if Position(members, name) < |members| then Some(Position(members, name)) else None
    case ArrayValue(elements) =>
      if IndexOf(name) != INVALID_INDEX && IndexOf(name) < |elements| then Some(IndexOf(name)) else None
    case _ => None
  }

  /** The place a pointer leads to. */
  function Resolve(v: Tree, names: seq<Name>): (path: Option<Path>)
    ensures path.Some? ==> |path.value| == |names| && HasPath(v, path.value)
    decreases |names|
  {
    if names == [] then Some([])
    else
      match Select(v, names[0])
      case None => None
      case Some(k) =>
        match Resolve(Child(v, k), names[1..])
        case None => None
        case Some(path) => Some([k] + path)
  }

  /** What a value becomes when it has to hold something named: an array is lengthened with nulls, an object gets a
      null member, and anything unfit to hold the name is replaced. */
  function Opened(v: Tree, name: Name): Tree {
    if v.ArrayValue? && name == PAST_LAST then ArrayValue(v.elements + [NullValue])
    else if v.ArrayValue? && IndexOf(name) != INVALID_INDEX then ArrayValue(Lengthened(v.elements, IndexOf(name) + 1))
    else if v.ObjectValue? then ObjectValue(WithMember(v.members, name))
    else if IndexOf(name) == INVALID_INDEX then ObjectValue(WithMember([], name))
    else ArrayValue(Lengthened([], IndexOf(name) + 1))
  }

  /** An array of at least a length. */
  function Lengthened(elements: seq<Tree>, length: nat): (r: seq<Tree>)
    ensures |r| == if |elements| < length then length else |elements|
    ensures r[..|elements|] == elements
    ensures forall j | |elements| <= j < |r| :: r[j] == NullValue
  {
    if |elements| < length then elements + seq(length - |elements|, _ => NullValue) else elements
  }

  /** Members among which there is one of a name. */
  function WithMember(members: seq<Member>, name: Name): (r: seq<Member>)
    ensures members <= r && Position(r, name) == Position(members, name) < |r| <= |members| + 1
    ensures Position(members, name) == |members| ==> r[|members|].value == NullValue
  {
    if Position(members, name) < |members| then members
    else
      PositionOfNew(members, name);
      members + [Member(name, NullValue)]
  }

  lemma {:induction false} PositionOfNew(members: seq<Member>, name: Name)
    requires Position(members, name) == |members|
    ensures Position(members + [Member(name, NullValue)], name) == |members|
  {
    if members != [] {
      PositionOfNew(members[1..], name);
      assert (members + [Member(name, NullValue)])[1..] == members[1..] + [Member(name, NullValue)];
    }
  }

  /** The child of the opened value that holds what was named. */
  function Entered(v: Tree, name: Name): (k: nat)
    ensures k < ChildCount(Opened(v, name))
  {
    if v.ArrayValue? && name == PAST_LAST then |v.elements|
    else if Opened(v, name).ArrayValue? then IndexOf(name)
    else Position(Opened(v, name).members, name)
  }

  /** The tree after creating what a pointer points at. */
  function Created(v: Tree, names: seq<Name>): Tree
    decreases |names|
  {
    if names == [] then v
    else
      var u, k := Opened(v, names[0]), Entered(v, names[0]);
      WithChild(u, k, Created(Child(u, k), names[1..]))
  }

  /** The place of what was created. */
  function CreatedPath(v: Tree, names: seq<Name>): (path: Path)
    ensures HasPath(Created(v, names), path)
    decreases |names|
  {
    if names == [] then []
    else
      var u, k := Opened(v, names[0]), Entered(v, names[0]);
      [k] + CreatedPath(Child(u, k), names[1..])
  }

  function WithoutChild(v: Tree, k: nat): (w: Tree)
    requires k < ChildCount(v)
    ensures ChildCount(w) == ChildCount(v) - 1
  {
    match v
    case ArrayValue(elements) => ArrayValue(elements[..k] + elements[k + 1..])
    case ObjectValue(members) => ObjectValue(members[..k] + members[k + 1..])
  }

  /** The tree after erasing what a pointer points at. */
  function Erased(v: Tree, names: seq<Name>): Option<Tree>
    decreases |names|
  {
    if names == [] || Select(v, names[0]).None? then None
    else
      var k := Select(v, names[0]).value;
      if |names| == 1 then Some(WithoutChild(v, k))
      else
        match Erased(Child(v, k), names[1..])
        case None => None
        case Some(child) => Some(WithChild(v, k, child))
  }

  // ----- the laws of evaluation

  /** Somewhere on the way the name past the last element meets an array. */
  predicate MeetsPastLast(v: Tree, names: seq<Name>)
    decreases |names|
  {
    names != []
    && ((v.ArrayValue? && names[0] == PAST_LAST)
        || (Select(v, names[0]).Some? && MeetsPastLast(Child(v, Select(v, names[0]).value), names[1..])))
  }

  /** Somewhere on the way a name that is no index meets an array with elements, which is replaced by an object. */
  predicate LosesElements(v: Tree, names: seq<Name>)
    decreases |names|
  {
    names != []
    && ((v.ArrayValue? && v.elements != [] && names[0] != PAST_LAST && IndexOf(names[0]) == INVALID_INDEX)
        || (Select(v, names[0]).Some? && LosesElements(Child(v, Select(v, names[0]).value), names[1..])))
  }

  /** The pointer leads to one new child, at the end of a container that is there already. */
  predicate AddsOneChild(v: Tree, names: seq<Name>)
    decreases |names|
  {
    if |names| == 0 then false
    else if |names| == 1 then IsNextChild(v, names[0])
    else Select(v, names[0]).Some? && AddsOneChild(Child(v, Select(v, names[0]).value), names[1..])
  }

  /** The name is that of no member of the object, or the index just past the last of the array. */
  predicate IsNextChild(v: Tree, name: Name) {
    match v
    case ObjectValue(members) => Position(members, name) == |members|
    case ArrayValue(elements) => IndexOf(name) != INVALID_INDEX && IndexOf(name) == |elements|
    case _ => false
  }

  lemma NullSelectsNothing(names: seq<Name>)
    ensures !MeetsPastLast(NullValue, names)
    ensures names != [] ==> Resolve(NullValue, names).None?
  {
  }

  lemma PastLastIsNoIndex()
    ensures IndexOf(PAST_LAST) == INVALID_INDEX
  {
    assert !IsDigit(PAST_LAST[0]);
  }

  /** `/` and a numeral below 2^32 - 1 lead to the element of that number exactly if there is one, and `Create` makes an
      array just long enough for it. */
  lemma NumeralReachesElement(elements: seq<Tree>, n: nat)
    requires n < INVALID_INDEX
    ensures ParseNames(Codes("/") + Decimal(n)) == Got([Decimal(n)], 1 + |Decimal(n)|)
    ensures Resolve(ArrayValue(elements), [Decimal(n)]) == if n < |elements| then Some([n]) else None
    ensures var w, longer := Created(ArrayValue(elements), [Decimal(n)]), if n < |elements| then |elements| else n + 1;
            && CreatedPath(ArrayValue(elements), [Decimal(n)]) == [n]
            && w.ArrayValue? && |w.elements| == longer && w.elements[..|elements|] == elements
            && forall j | |elements| <= j < longer :: w.elements[j] == NullValue
  {
    ReadsIndex(n);
    IndexOfDecimal(n);
    DecimalDigits(n);
    assert Decimal(n) != PAST_LAST by {
      assert IsDigit(Decimal(n)[0]);
    }
    hide IndexOf, Decimal, ParseNames;
    OneStep(ArrayValue(elements), Decimal(n));
  }

  /** A pointer of one name leads to a child. */
  lemma OneStep(v: Tree, name: Name)
    ensures Resolve(v, [name]) == match Select(v, name) { case None => None case Some(k) => Some([k]) }
    ensures Created(v, [name]) == Opened(v, name) && CreatedPath(v, [name]) == [Entered(v, name)]
  {
    hide Select, Opened, Entered;
    assert [name][1..] == [];
    var u, k := Opened(v, name), Entered(v, name);
    assert WithChild(u, k, Child(u, k)) == u;
    assert Created(Child(u, k), []) == Child(u, k) && CreatedPath(Child(u, k), []) == [];
    match Select(v, name)
    case None =>
    case Some(i) =>
      assert Resolve(Child(v, i), []) == Some([]) && [i] + [] == [i];
  }

  /** A name that is the numeral of no number selects no element, and an array it meets becomes an object. */
  lemma OtherNamesReachNoElement(elements: seq<Tree>, name: Name)
    requires name != PAST_LAST && forall n: nat :: name != Decimal(n)
    ensures Select(ArrayValue(elements), name) == None && Opened(ArrayValue(elements), name) == ObjectValue([Member(name, NullValue)])
  {
    OnlyNumeralsHaveIndex(name);
    hide IndexOf;
    assert WithMember([], name) == [] + [Member(name, NullValue)];
  }

  /** A value that holds no others becomes an array for a numeral, and an object for any other name, `-` included; an
      object stays one, whatever the name. */
  lemma WhatBecomesOfOthers(v: Tree, n: nat, name: Name, members: seq<Member>)
    requires !v.ArrayValue? && !v.ObjectValue? && n < INVALID_INDEX && forall k: nat :: name != Decimal(k)
    ensures Opened(v, Decimal(n)) == ArrayValue(seq(n + 1, _ => NullValue)) && Entered(v, Decimal(n)) == n
    ensures Opened(v, name) == ObjectValue([Member(name, NullValue)])
    ensures forall any: Name ::
              var w := Opened(ObjectValue(members), any);
              w.ObjectValue? && (w.members == members || w.members == members + [Member(any, NullValue)])
  {
    IndexOfDecimal(n);
    OnlyNumeralsHaveIndex(name);
    hide IndexOf, Decimal;
    assert Lengthened([], n + 1) == seq(n + 1, _ => NullValue);
    assert WithMember([], name) == [] + [Member(name, NullValue)];
  }

  /** What a name selects already is left alone, and entered. */
  lemma SelectedIsKept(v: Tree, name: Name)
    requires Select(v, name).Some?
    ensures Opened(v, name) == v && Entered(v, name) == Select(v, name).value
  {
    PastLastIsNoIndex();
    hide IndexOf;
  }

  /** Unless it is one more array element, what is entered is what the name then selects; a new child is null. */
  lemma EnteredIsSelected(v: Tree, name: Name)
    ensures Select(Opened(v, name), name)
         == if v.ArrayValue? && name == PAST_LAST then None else Some(Entered(v, name))
    ensures Select(v, name).None? ==> Child(Opened(v, name), Entered(v, name)) == NullValue
  {
    PastLastIsNoIndex();
    hide IndexOf;
  }

  /** Replacing a child does not change which child a name selects. */
  lemma SelectAfterWithChild(v: Tree, k: nat, child: Tree, name: Name)
    requires k < ChildCount(v)
    ensures Select(WithChild(v, k, child), name) == Select(v, name)
  {
    hide IndexOf;
    if v.ObjectValue? {
      PositionAfterUpdate(v.members, k, child, name);
    }
  }

  lemma {:induction false} PositionAfterUpdate(members: seq<Member>, k: nat, child: Tree, name: Name)
    requires k < |members|
    ensures Position(members[k := Member(members[k].name, child)], name) == Position(members, name)
  {
    var updated := members[k := Member(members[k].name, child)];
    if k > 0 && members[0].name != name {
      PositionAfterUpdate(members[1..], k - 1, child, name);
      assert updated[1..] == members[1..][k - 1 := Member(members[k].name, child)];
    } else if k == 0 {
      assert updated[1..] == members[1..];
    }
  }

  /** `Create` finds the value there already exactly if `Get` does; then it is at the same place, and nothing changes. */
  lemma {:induction false} CreateKeepsWhatExists(v: Tree, names: seq<Name>)
    requires Resolve(v, names).Some?
    ensures Created(v, names) == v && CreatedPath(v, names) == Resolve(v, names).value
    decreases |names|
  {
    hide Select, Opened, Entered, IndexOf, Position;
    if names != [] {
      var k := Select(v, names[0]).value;
      SelectedIsKept(v, names[0]);
      CreateKeepsWhatExists(Child(v, k), names[1..]);
      assert WithChild(v, k, Child(v, k)) == v;
    }
  }

  /** After `Create`, `Get` reaches what was created, exactly if no name past the last element met an array. */
  lemma {:induction false} CreatedIsReached(v: Tree, names: seq<Name>)
    ensures Resolve(Created(v, names), names).Some? <==> !MeetsPastLast(v, names)
    ensures !MeetsPastLast(v, names) ==> Resolve(Created(v, names), names) == Some(CreatedPath(v, names))
    decreases |names|
  {
    hide Select, Opened, Entered, IndexOf, Position;
    if names != [] {
      var u, k := Opened(v, names[0]), Entered(v, names[0]);
      var rest := Child(u, k);
      CreatedIsReached(rest, names[1..]);
      EnteredIsSelected(v, names[0]);
      SelectAfterWithChild(u, k, Created(rest, names[1..]), names[0]);
      if Select(v, names[0]).Some? {
        SelectedIsKept(v, names[0]);
        NotPastLast(v, names[0]);
      } else {
        NullSelectsNothing(names[1..]);
      }
    }
  }

  lemma NotPastLast(v: Tree, name: Name)
    requires Select(v, name).Some?
    ensures !(v.ArrayValue? && name == PAST_LAST)
  {
    PastLastIsNoIndex();
    hide IndexOf;
  }

  /** In an array, `-` is the element past the last; once that has been created, it is another one. */
  lemma PastLastIsNotReached()
    ensures Created(ArrayValue([]), [PAST_LAST]) == ArrayValue([NullValue])
    ensures Resolve(ArrayValue([NullValue]), [PAST_LAST]) == None
  {
    PastLastIsNoIndex();
    var u := Opened(ArrayValue([]), PAST_LAST);
    assert u == ArrayValue([NullValue]) && Entered(ArrayValue([]), PAST_LAST) == 0;
    assert Created(NullValue, [PAST_LAST][1..]) == NullValue;
    assert WithChild(u, 0, NullValue) == u;
  }

  /** What is at the place created: the value that was there, or else null. */
  lemma {:induction false} CreatedIsNullOrOld(v: Tree, names: seq<Name>)
    ensures Sub(Created(v, names), CreatedPath(v, names))
         == match Resolve(v, names)
            case Some(path) => Sub(v, path)
            case None => NullValue
    decreases |names|
  {
    hide Select, Opened, Entered, IndexOf, Position;
    if names != [] {
      var u, k := Opened(v, names[0]), Entered(v, names[0]);
      CreatedIsNullOrOld(Child(u, k), names[1..]);
      EnteredIsSelected(v, names[0]);
      if Select(v, names[0]).Some? {
        SelectedIsKept(v, names[0]);
      } else {
        NullSelectsNothing(names[1..]);
      }
    }
  }

  /** `Erase` succeeds exactly if the pointer is not empty and `Get` resolves it. */
  lemma {:induction false} EraseSucceedsWhenResolved(v: Tree, names: seq<Name>)
    ensures Erased(v, names).Some? <==> names != [] && Resolve(v, names).Some?
    decreases |names|
  {
    hide Select;
    if names != [] && Select(v, names[0]).Some? {
      EraseSucceedsWhenResolved(Child(v, Select(v, names[0]).value), names[1..]);
    }
  }

  // ----- what `Create` keeps

  /** Opening a value keeps its children, and the names that select them, unless it is an array that is replaced. */
  lemma OpenedKeepsChildren(v: Tree, name: Name, other: Name)
    requires Select(v, other).Some?
    requires v.ArrayValue? ==> name == PAST_LAST || IndexOf(name) != INVALID_INDEX
    ensures Select(Opened(v, name), other) == Select(v, other)
    ensures Child(Opened(v, name), Select(v, other).value) == Child(v, Select(v, other).value)
  {
    hide IndexOf;
    if v.ObjectValue? {
      PositionOfOld(v.members, WithMember(v.members, name), other);
    }
  }

  lemma {:induction false} PositionOfOld(members: seq<Member>, more: seq<Member>, name: Name)
    requires members <= more && Position(members, name) < |members|
    ensures Position(more, name) == Position(members, name)
  {
    if members[0].name != name {
      PositionOfOld(members[1..], more[1..], name);
    }
  }

  /** Whatever `Get` reached before `Create`, it still reaches at the same place, and it is the same value unless the
      place is on the way to what was created. */
  lemma {:induction false} CreateKeepsOthers(v: Tree, names: seq<Name>, other: seq<Name>)
    requires !LosesElements(v, names) && Resolve(v, other).Some?
    ensures Resolve(Created(v, names), other) == Resolve(v, other)
    ensures var place := Resolve(v, other).value;
            !(place <= CreatedPath(v, names)) ==> Sub(Created(v, names), place) == Sub(v, place)
    decreases |names|
  {
    hide Select, Opened, Entered, IndexOf, Position;
    if names != [] && other != [] {
      var u, k := Opened(v, names[0]), Entered(v, names[0]);
      var rest := Created(Child(u, k), names[1..]);
      var j := Select(v, other[0]).value;
      ReplacedHasNoChild(v, names, other[0]);
      OpenedKeepsChildren(v, names[0], other[0]);
      SelectAfterWithChild(u, k, rest, other[0]);
      if j == k {
        SelectedOrNew(v, names[0], other[0]);
        CreateKeepsOthers(Child(v, k), names[1..], other[1..]);
        assert Resolve(v, other).value[1..] == Resolve(Child(v, k), other[1..]).value;
      }
    }
  }

  lemma ReplacedHasNoChild(v: Tree, names: seq<Name>, other: Name)
    requires names != [] && !LosesElements(v, names) && Select(v, other).Some?
    ensures v.ArrayValue? ==> names[0] == PAST_LAST || IndexOf(names[0]) != INVALID_INDEX
  {
    hide IndexOf, Position;
  }

  /** A child that was there is entered only by selecting it. */
  lemma SelectedOrNew(v: Tree, name: Name, other: Name)
    requires Select(v, other).Some? && Select(v, other).value == Entered(v, name)
    requires v.ArrayValue? ==> name == PAST_LAST || IndexOf(name) != INVALID_INDEX
    ensures Select(v, name) == Some(Entered(v, name))
  {
    PastLastIsNoIndex();
    hide IndexOf;
  }

  /** A pointer to something that is lost. */
  ghost function Lost(v: Tree, names: seq<Name>): seq<Name>
    requires LosesElements(v, names)
    decreases |names|
  {
    if v.ArrayValue? && v.elements != [] && names[0] != PAST_LAST && IndexOf(names[0]) == INVALID_INDEX then [[DIGIT_0]]
    else [names[0]] + Lost(Child(v, Select(v, names[0]).value), names[1..])
  }

  lemma ZeroIsAnIndex()
    ensures IndexOf([DIGIT_0]) == 0
  {
    assert WrappedNumber([DIGIT_0], 0, 0) == WrappedNumber([DIGIT_0], 1, 0);
  }

  lemma ReplacedLosesFirst(v: Tree, name: Name)
    requires v.ArrayValue? && v.elements != [] && name != PAST_LAST && IndexOf(name) == INVALID_INDEX
    ensures Select(v, [DIGIT_0]).Some? && Select(Opened(v, name), [DIGIT_0]).None?
  {
    hide IndexOf, WithMember;
    ZeroIsAnIndex();
    PositionInOne(name, [DIGIT_0]);
  }

  lemma PositionInOne(name: Name, other: Name)
    requires name != other
    ensures Position(WithMember([], name), other) == |WithMember([], name)|
  {
    var members := WithMember([], name);
    assert members == [Member(name, NullValue)] && members[1..] == [];
  }

  lemma {:induction false} LostIsLost(v: Tree, names: seq<Name>)
    requires LosesElements(v, names)
    ensures Resolve(v, Lost(v, names)).Some? && Resolve(Created(v, names), Lost(v, names)).None?
    decreases |names|
  {
    hide Select, Opened, Entered, IndexOf, Position;
    var u, k := Opened(v, names[0]), Entered(v, names[0]);
    var rest := Created(Child(u, k), names[1..]);
    if v.ArrayValue? && v.elements != [] && names[0] != PAST_LAST && IndexOf(names[0]) == INVALID_INDEX {
      ReplacedLosesFirst(v, names[0]);
      SelectAfterWithChild(u, k, rest, [DIGIT_0]);
    } else {
      SelectedIsKept(v, names[0]);
      LostIsLost(Child(v, k), names[1..]);
      SelectAfterWithChild(v, k, rest, names[0]);
      assert Lost(v, names)[1..] == Lost(Child(v, k), names[1..]);
    }
  }

  /** An array that has to hold the name `a` becomes an object, and its element is gone. */
  lemma ArrayBecomesObject()
    ensures var v, names := ArrayValue([NullValue]), [[LOWER_A]];
            && Created(v, names) == ObjectValue([Member([LOWER_A], NullValue)])
            && Resolve(v, [[DIGIT_0]]).Some? && Resolve(Created(v, names), [[DIGIT_0]]) == None
  {
    var v, name := ArrayValue([NullValue]), [LOWER_A];
    assert !IsDigit(name[0]);
    assert name != PAST_LAST;
    var u := Opened(v, name);
    assert u == ObjectValue([Member(name, NullValue)]);
    assert Created(NullValue, [name][1..]) == NullValue;
    assert WithChild(u, 0, NullValue) == u;
    ReplacedLosesFirst(v, name);
    assert Resolve(NullValue, [[DIGIT_0]][1..]) == Some([]);
  }

  /** `Create` keeps everything `Get` reached in its place exactly if it replaces no array that has elements. */
  lemma CreateKeepsPlaces(v: Tree, names: seq<Name>)
    ensures !LosesElements(v, names)
       <==> forall other | Resolve(v, other).Some? :: Resolve(Created(v, names), other) == Resolve(v, other)
  {
    if LosesElements(v, names) {
      LostIsLost(v, names);
    } else {
      forall other | Resolve(v, other).Some?
        ensures Resolve(Created(v, names), other) == Resolve(v, other)
      {
        CreateKeepsOthers(v, names, other);
      }
    }
  }

  // ----- `Erase` against `Create` and `Get`

  /** Erasing takes the child that `Get` reaches out of its parent, and changes nothing else. */
  lemma {:induction false} EraseRemovesTheChild(v: Tree, names: seq<Name>)
    requires names != [] && Resolve(v, names).Some?
    ensures var path, last := Resolve(v, names).value, |names| - 1;
            HasPath(v, path[..last]) && path[last] < ChildCount(Sub(v, path[..last]))
            && Erased(v, names) == Some(Plug(v, path[..last], WithoutChild(Sub(v, path[..last]), path[last])))
    decreases |names|
  {
    hide Select;
    var path := Resolve(v, names).value;
    if |names| > 1 {
      var k := path[0];
      EraseRemovesTheChild(Child(v, k), names[1..]);
      var rest := Resolve(Child(v, k), names[1..]).value;
      assert path == [k] + rest;
      assert path[..|names| - 1] == [k] + rest[..|names| - 2];
    }
  }

  /** Erasing what was just created gives the tree from before exactly if creating added one child at the end. */
  lemma {:induction false} EraseUndoesCreate(v: Tree, names: seq<Name>)
    ensures Erased(Created(v, names), names) == Some(v) <==> AddsOneChild(v, names)
    decreases |names|
  {
    hide Select, Opened, Entered, IndexOf, Position, IsNextChild;
    if |names| > 0 {
      var u, k := Opened(v, names[0]), Entered(v, names[0]);
      var rest := Created(Child(u, k), names[1..]);
      var w := WithChild(u, k, rest);
      assert Created(v, names) == w;
      EnteredIsSelected(v, names[0]);
      SelectAfterWithChild(u, k, rest, names[0]);
      if |names| == 1 {
        assert w == u by {
          assert WithChild(u, k, Child(u, k)) == u;
        }
        NextChildIsUndone(v, names[0]);
      } else if Select(w, names[0]).Some? {
        EraseUndoesCreate(Child(u, k), names[1..]);
        if Select(v, names[0]).Some? {
          SelectedIsKept(v, names[0]);
          ChildBack(v, k, rest, Erased(rest, names[1..]));
        } else if Erased(rest, names[1..]).Some? {
          NewChildStays(v, names[0], rest, Erased(rest, names[1..]).value);
        }
      } else {
        NotPastLastIfSelected(v, names[0]);
      }
    }
  }

  lemma NotPastLastIfSelected(v: Tree, name: Name)
    ensures v.ArrayValue? && name == PAST_LAST ==> Select(v, name).None?
  {
    PastLastIsNoIndex();
    hide IndexOf;
  }

  /** Opening and taking out what was entered. */
  lemma NextChildIsUndone(v: Tree, name: Name)
    ensures Erased(Opened(v, name), [name]) == Some(v) <==> IsNextChild(v, name)
  {
    hide IndexOf, Position, Lengthened;
    PastLastIsNoIndex();
    EnteredIsSelected(v, name);
    var u, k := Opened(v, name), Entered(v, name);
    if v.ObjectValue? {
      if Position(v.members, name) == |v.members| {
        assert u.members[..k] + u.members[k + 1..] == v.members;
      }
    } else if v.ArrayValue? && u.ArrayValue? && |u.elements| == |v.elements| + 1 {
      assert u.elements[..k] + u.elements[k + 1..] == v.elements;
    }
  }

  /** Putting a child back gives the old value exactly if it is the old child. */
  lemma ChildBack(v: Tree, k: nat, rest: Tree, child: Option<Tree>)
    requires k < ChildCount(v)
    ensures child.Some? ==> (WithChild(WithChild(v, k, rest), k, child.value) == v <==> child.value == Child(v, k))
  {
    assert WithChild(v, k, Child(v, k)) == v;
    if child.Some? && child.value == Child(v, k) {
      if v.ArrayValue? {
        assert v.elements[k := rest][k := child.value] == v.elements;
      } else {
        assert v.members[k := Member(v.members[k].name, rest)][k := Member(v.members[k].name, child.value)] == v.members;
      }
    }
  }

  /** A child that was added is still there after something below it has been erased. */
  lemma NewChildStays(v: Tree, name: Name, rest: Tree, child: Tree)
    requires Select(v, name).None?
    ensures WithChild(WithChild(Opened(v, name), Entered(v, name), rest), Entered(v, name), child) != v
  {
    PastLastIsNoIndex();
    hide IndexOf;
  }

  // ----- the operations

  lemma {:induction false} ResolveJoins(v: Tree, names: seq<Name>, more: seq<Name>)
    ensures Resolve(v, names + more)
         == match Resolve(v, names)
            case None => None
            case Some(path) =>
              match Resolve(Sub(v, path), more)
              case None => None
              case Some(rest) => Some(path + rest)
    decreases |names|
  {
    hide Select;
    if names == [] {
      assert names + more == more;
      assert forall rest: Path :: [] + rest == rest;
    } else {
      assert (names + more)[1..] == names[1..] + more;
      if Select(v, names[0]).Some? {
        var k := Select(v, names[0]).value;
        ResolveJoins(Child(v, k), names[1..], more);
        if Resolve(Child(v, k), names[1..]).Some? {
          var path := Resolve(Child(v, k), names[1..]).value;
          assert ([k] + path)[1..] == path;
          assert forall rest: Path :: ([k] + path) + rest == [k] + (path + rest);
        }
      }
    }
  }

  /** One step further down a path. */
  lemma {:induction false} SubStep(v: Tree, path: Path, k: nat)
    requires HasPath(v, path) && k < ChildCount(Sub(v, path))
    ensures HasPath(v, path + [k]) && Sub(v, path + [k]) == Child(Sub(v, path), k)
    ensures forall new' :: Plug(v, path + [k], new') == Plug(v, path, WithChild(Sub(v, path), k, new'))
    decreases |path|
  {
    if path != [] {
      assert (path + [k])[1..] == path[1..] + [k];
      SubStep(Child(v, path[0]), path[1..], k);
    } else {
      assert path + [k] == [k] && [k][1..] == [];
    }
  }

  lemma {:induction false} PlugAgain(v: Tree, path: Path, new': Tree)
    requires HasPath(v, path)
    ensures HasPath(Plug(v, path, new'), path) && Sub(Plug(v, path, new'), path) == new'
    ensures forall newer :: Plug(Plug(v, path, new'), path, newer) == Plug(v, path, newer)
    decreases |path|
  {
    if path != [] {
      PlugAgain(Child(v, path[0]), path[1..], new');
    }
  }

  /** A document, and the operations of a pointer, given as its names, on it. */
  class GenericDocument {
    var root: Tree

    constructor (root: Tree)
      ensures this.root == root
    {
      this.root := root;
    }

    /** `FindMember`: the first member of the name, or the end. */
    static method FindMember(members: seq<Member>, name: Name) returns (member: nat)
      ensures member == Position(members, name)
    {
      member := 0;
      while member < |members|
        invariant member <= |members| && Position(members, name) == member + Position(members[member..], name)
      {
        if members[member].name == name {
          break;
        }
        assert members[member..][1..] == members[member + 1..];
        member := member + 1;
      }
    }

    /** One step of `Get` and of `Erase`: the child a name selects. */
    static method Find(v: Tree, name: Name) returns (k: Option<nat>)
      ensures k == Select(v, name)
    {
      match v {
        case ObjectValue(members) =>
          var m := FindMember(members, name);
          k := if m == |members| then None else Some(m);
        case ArrayValue(elements) =>
          k := if IndexOf(name) == INVALID_INDEX || IndexOf(name) >= |elements| then None else Some(IndexOf(name));
        case _ =>
          k := None;
      }
    }

    /** `Get`: the place the names lead to; or the first name that selects nothing where the ones before it lead. */
    method Get(names: seq<Name>) returns (place: Option<Path>, unresolved: nat)
      ensures place == Resolve(root, names)
      ensures place.None? ==> unresolved < |names| && Resolve(root, names[..unresolved]).Some?
      ensures place.None? ==> Select(Sub(root, Resolve(root, names[..unresolved]).value), names[unresolved]).None?
    {
      hide Select;
      var path: Path := [];
      var t := 0;
      while t < |names|
        invariant t <= |names| && HasPath(root, path) && Resolve(root, names[..t]) == Some(path)
      {
        assert names == names[..t] + names[t..];
        ResolveJoins(root, names[..t], names[t..]);
        var k := Find(Sub(root, path), names[t]);
        if k.None? {
          return None, t;
        }
        OneMore(root, names, t, path, k.value);
        path, t := path + [k.value], t + 1;
      }
      assert names[..t] == names;
      return Some(path), t;
    }

    /** `Create`: the place, and whether it was there before. */
    method Create(names: seq<Name>) returns (place: Path, exist: bool)
      modifies this
      ensures root == Created(old(root), names) && place == CreatedPath(old(root), names)
      ensures exist <==> Resolve(old(root), names).Some?
    {
      hide Select, Opened, Entered, Created, CreatedPath, Resolve;
      place, exist := [], true;
      var t := 0;
      CreatedFrom(root, names);
      while t < |names|
        invariant t <= |names| && HasPath(root, place)
        invariant Plug(root, place, Created(Sub(root, place), names[t..])) == Created(old(root), names)
        invariant place + CreatedPath(Sub(root, place), names[t..]) == CreatedPath(old(root), names)
        invariant exist && Resolve(Sub(root, place), names[t..]).Some? <==> Resolve(old(root), names).Some?
      {
        ghost var before, v := root, Sub(root, place);
        var wider, k, found := Open(Sub(root, place), names[t]);
        CreateStep(before, place, names[t..], wider, k);
        assert names[t..][1..] == names[t + 1..];
        root := Plug(root, place, wider);
        exist := exist && found;
        place, t := place + [k], t + 1;
      }
      assert names[t..] == [];
      CreatedEnds(root, place);
    }

    /** One step of `Create`: the value made fit to hold what is named, the child that holds it, and whether it was
        there before. */
    static method Open(value: Tree, name: Name) returns (v: Tree, k: nat, found: bool)
      ensures v == Opened(value, name) && k == Entered(value, name)
      ensures found <==> Select(value, name).Some?
    {
      v, found := value, true;
      if v.ArrayValue? && |name| == 1 && name[0] == DASH {
        v := ArrayValue(v.elements + [NullValue]);
        k, found := |v.elements| - 1, false;
        PastLastIsNoIndex();
        return;
      }
      var index := IndexOf(name);
      if index == INVALID_INDEX {
        if !v.ObjectValue? {
          v := ObjectValue([]);
        }
      } else if !v.ArrayValue? && !v.ObjectValue? {
        v := ArrayValue([]);
      }
      if v.ArrayValue? {
        var elements := v.elements;
        if index >= |elements| {
          while index >= |elements|
            invariant |v.elements| <= |elements| <= index + 1 && elements[..|v.elements|] == v.elements
            invariant forall j | |v.elements| <= j < |elements| :: elements[j] == NullValue
          {
            elements := elements + [NullValue];
          }
          found := false;
        }
        assert elements == Lengthened(v.elements, index + 1);
        v, k := ArrayValue(elements), index;
      } else {
        var m := FindMember(v.members, name);
        if m == |v.members| {
          PositionOfNew(v.members, name);
          v := ObjectValue(v.members + [Member(name, NullValue)]);
          found := false;
        }
        k := m;
      }
    }

    /** `Erase` */
    method Erase(names: seq<Name>) returns (erased: bool)
      modifies this
      ensures erased <==> names != [] && Resolve(old(root), names).Some?
      ensures Erased(old(root), names) == if erased then Some(root) else None
      ensures !erased ==> root == old(root)
    {
      hide Select, Resolve, Erased;
      EraseSucceedsWhenResolved(root, names);
      if |names| == 0 {
        return false;
      }
      var last := |names| - 1;
      var path: Path := [];
      var t := 0;
      ResolveNothing(root);
      while t < last
        invariant t <= last && HasPath(root, path) && Resolve(root, names[..t]) == Some(path) && root == old(root)
      {
        var k := Find(Sub(root, path), names[t]);
        Unresolved(root, names, t, path);
        if k.None? {
          return false;
        }
        OneMore(root, names, t, path, k.value);
        path, t := path + [k.value], t + 1;
      }
      var k := Find(Sub(root, path), names[last]);
      Unresolved(root, names, last, path);
      if k.None? {
        return false;
      }
      OneMore(root, names, last, path, k.value);
      assert names[..last + 1] == names && (path + [k.value])[..last] == path;
      EraseRemovesTheChild(root, names);
      root := Plug(root, path, WithoutChild(Sub(root, path), k.value));
      return true;
    }
  }

  lemma ResolveNothing(v: Tree)
    ensures Resolve(v, []) == Some([])
  {
  }

  /** A name that selects nothing where the ones before it lead. */
  lemma Unresolved(v: Tree, names: seq<Name>, t: nat, path: Path)
    requires t < |names| && Resolve(v, names[..t]) == Some(path)
    ensures HasPath(v, path) && (Select(Sub(v, path), names[t]).None? ==> Resolve(v, names).None?)
  {
    hide Select;
    assert names == names[..t] + names[t..];
    ResolveJoins(v, names[..t], names[t..]);
  }

  lemma OneMore(v: Tree, names: seq<Name>, t: nat, path: Path, k: nat)
    requires t < |names| && Resolve(v, names[..t]) == Some(path)
    requires HasPath(v, path) && Select(Sub(v, path), names[t]) == Some(k)
    ensures Resolve(v, names[..t + 1]) == Some(path + [k]) && HasPath(v, path + [k]) && |path| == t
  {
    hide Select;
    assert names[..t + 1] == names[..t] + [names[t]];
    ResolveJoins(v, names[..t], [names[t]]);
    ResolveNothing(Child(Sub(v, path), k));
    assert [k] + [] == [k];
  }

  lemma CreatedFrom(v: Tree, names: seq<Name>)
    ensures names[0..] == names && HasPath(v, []) && Sub(v, []) == v
    ensures forall new' :: Plug(v, [], new') == new'
    ensures [] + CreatedPath(v, names) == CreatedPath(v, names)
  {
  }

  lemma CreatedEnds(v: Tree, path: Path)
    requires HasPath(v, path)
    ensures Plug(v, path, Created(Sub(v, path), [])) == v && path + CreatedPath(Sub(v, path), []) == path
    ensures Resolve(Sub(v, path), []).Some?
  {
    PlugBack(v, path);
  }

  lemma {:induction false} PlugBack(v: Tree, path: Path)
    requires HasPath(v, path)
    ensures Plug(v, path, Sub(v, path)) == v
    decreases |path|
  {
    if path != [] {
      PlugBack(Child(v, path[0]), path[1..]);
      assert WithChild(v, path[0], Child(v, path[0])) == v;
    }
  }

  /** What a step of `Create` at a place does to the whole. */
  lemma CreateStep(root: Tree, place: Path, names: seq<Name>, wider: Tree, k: nat)
    requires HasPath(root, place) && names != []
    requires wider == Opened(Sub(root, place), names[0]) && k == Entered(Sub(root, place), names[0])
    ensures var root', place', v := Plug(root, place, wider), place + [k], Sub(root, place);
            HasPath(root', place')
            && Plug(root', place', Created(Sub(root', place'), names[1..])) == Plug(root, place, Created(v, names))
            && place' + CreatedPath(Sub(root', place'), names[1..]) == place + CreatedPath(v, names)
            && (Resolve(v, names).Some? <==> Select(v, names[0]).Some? && Resolve(Sub(root', place'), names[1..]).Some?)
  {
    hide Select, Opened, Entered, Created, CreatedPath, Resolve, Plug, Sub, HasPath, ChildCount, Child, WithChild;
    var v := Sub(root, place);
    PlugAgain(root, place, wider);
    CreatedOneStep(v, names);
    SubStep(Plug(root, place, wider), place, k);
    PathsJoin(place, k, CreatedPath(Child(wider, k), names[1..]));
  }

  lemma PathsJoin(place: Path, k: nat, path: Path)
    ensures (place + [k]) + path == place + ([k] + path)
  {
  }

  lemma CreatedOneStep(v: Tree, names: seq<Name>)
    requires names != []
    ensures var u, k := Opened(v, names[0]), Entered(v, names[0]);
            k < ChildCount(u)
            && Created(v, names) == WithChild(u, k, Created(Child(u, k), names[1..]))
            && CreatedPath(v, names) == [k] + CreatedPath(Child(u, k), names[1..])
            && (Resolve(v, names).Some? <==> Select(v, names[0]).Some? && Resolve(Child(u, k), names[1..]).Some?)
  {
    hide Select, Opened, Entered;
    if Select(v, names[0]).Some? {
      SelectedIsKept(v, names[0]);
    }
  }
}
