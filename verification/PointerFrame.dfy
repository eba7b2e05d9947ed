/**
 What `Create`, `Set` and `Erase` of 3rdparty/rapidjson/pointer.h make of a whole tree: what they put where, and that
 they leave everything else as it was.
 */
module PointerFrame {
  import opened Json
  import opened PointerText
  import opened PointerAccess

  function Nulls(n: nat): (es: seq<Json>)
    ensures |es| == n && forall i :: 0 <= i < n ==> es[i] == Null
  {
    seq(n, _ => Null)
  }

  /** The first member called `name`, if there is one. */
  ghost predicate FirstMember(ms: seq<Member>, i: int, name: string) {
    0 <= i < |ms| && ms[i].name == name && forall j :: 0 <= j < i ==> ms[j].name != name
  }

  /** The tree that `Set` is to make: objects take a member, arrays an element (with nulls up to its position, or at
      the end for "-"), and any other value gives way to a new object or array. */
  ghost function Put(v: Json, tokens: seq<Token>, x: Json): Json
    decreases |tokens|
  {
    if tokens == [] then x
    else
      var t, rest := tokens[0], tokens[1..];
      match v
      case Obj(ms) =>
        if i :| FirstMember(ms, i, t.name) then
          Obj(ms[..i] + [Member(t.name, Put(ms[i].value, rest, x))] + ms[i + 1..])
        else Obj(ms + [Member(t.name, Put(Null, rest, x))])
      case Arr(es) =>
        if IsDash(t) then Arr(es + [Put(Null, rest, x)])
        else if t.index == INVALID_INDEX then Obj([Member(t.name, Put(Null, rest, x))])
        else if t.index < |es| then Arr(es[..t.index] + [Put(es[t.index], rest, x)] + es[t.index + 1..])
        else Arr(es + Nulls(t.index - |es|) + [Put(Null, rest, x)])
      case _ =>
        if t.index == INVALID_INDEX then Obj([Member(t.name, Put(Null, rest, x))])
        else Arr(Nulls(t.index) + [Put(Null, rest, x)])
  }

  // ---------------------------------------------------------------------------------------------
  // Set and Create
  // ---------------------------------------------------------------------------------------------

  lemma SetStep(v: Json, tokens: seq<Token>, x: Json)
    requires InRange(tokens) && tokens != []
    ensures var (w, there, i) := Provide(v, tokens[0]);
            InRange(tokens[1..]) && Set(v, tokens, x) == WithChild(w, i, Set(Child(w, i), tokens[1..], x))
  {
    hide Provide, WithChild, Child;
    var (w, there, i) := Provide(v, tokens[0]);
    var c := Create(Child(w, i), tokens[1..]);
    CreateLeads(Child(w, i), tokens[1..]);
    CreateLeads(v, tokens);
    assert ([i] + c.path)[1..] == c.path;
    ChildTwice(w, i, c.tree, Assign(c.tree, c.path, x));
  }

  lemma FirstIsFound(ms: seq<Member>, i: int, name: string)
    ensures FirstMember(ms, i, name) <==> 0 <= i < |ms| && FindMember(ms, name) == i
  {
    hide FindMember;
    var j := FindMember(ms, name);
  }

  lemma ReplacedMember(ms: seq<Member>, i: nat, y: Json)
    requires i < |ms|
    ensures ms[..i] + [Member(ms[i].name, y)] + ms[i + 1..] == ms[i := ms[i].(value := y)]
  {
  }

  lemma AddedMember(ms: seq<Member>, name: string, y: Json)
    ensures var all := ms + [Member(name, Null)];
            all[|ms|] == Member(name, Null) && all[|ms| := all[|ms|].(value := y)] == ms + [Member(name, y)]
  {
  }

  /** `Put` into an object, by the place where the member is found. */
  lemma PutIntoObject(ms: seq<Member>, t: Token, rest: seq<Token>, x: Json)
    ensures var i := FindMember(ms, t.name);
            Put(Obj(ms), [t] + rest, x)
            == if i < |ms| then Obj(ms[..i] + [Member(t.name, Put(ms[i].value, rest, x))] + ms[i + 1..])
               else Obj(ms + [Member(t.name, Put(Null, rest, x))])
  {
    hide FindMember, FirstMember;
    assert ([t] + rest)[1..] == rest;
    var i := FindMember(ms, t.name);
    forall j ensures FirstMember(ms, j, t.name) <==> j < |ms| && j == i {
      FirstIsFound(ms, j, t.name);
    }
    if i < |ms| {
      assert FirstMember(ms, i, t.name);
    }
  }

  lemma PutMember(ms: seq<Member>, t: Token, rest: seq<Token>, x: Json)
    requires t.index <= INVALID_INDEX
    ensures var (w, there, i) := Provide(Obj(ms), t);
            Put(Obj(ms), [t] + rest, x) == WithChild(w, i, Put(Child(w, i), rest, x))
  {
    hide FindMember, Put;
    PutIntoObject(ms, t, rest, x);
    var i := FindMember(ms, t.name);
    if i < |ms| {
      ReplacedMember(ms, i, Put(ms[i].value, rest, x));
    } else {
      AddedMember(ms, t.name, Put(Null, rest, x));
    }
  }

  lemma {:induction false} PaddedTo(es: seq<Json>, n: nat)
    ensures Pad(es, n) == if |es| < n then es + Nulls(n - |es|) else es
    decreases n - |es|
  {
    if |es| < n {
      PaddedTo(es + [Null], n);
      assert es + Nulls(n - |es|) == es + [Null] + Nulls(n - |es| - 1);
    }
  }

  lemma PutElement(es: seq<Json>, t: Token, rest: seq<Token>, x: Json)
    requires t.index < INVALID_INDEX && !IsDash(t)
    ensures var padded := Pad(es, t.index + 1);
            Put(Arr(es), [t] + rest, x) == Arr(padded[t.index := Put(padded[t.index], rest, x)])
  {
    hide Pad;
    assert ([t] + rest)[1..] == rest;
    PaddedTo(es, t.index + 1);
    var padded := Pad(es, t.index + 1);
    if t.index < |es| {
      var y := Put(es[t.index], rest, x);
      assert es[..t.index] + [y] + es[t.index + 1..] == padded[t.index := y];
    } else {
      var y := Put(Null, rest, x);
      assert padded[t.index] == Null;
      assert es + Nulls(t.index - |es|) + [y] == padded[t.index := y];
    }
  }

  lemma PutStep(v: Json, t: Token, rest: seq<Token>, x: Json)
    requires t.index <= INVALID_INDEX && (IsDash(t) ==> t.index == INVALID_INDEX)
    ensures var (w, there, i) := Provide(v, t);
            Put(v, [t] + rest, x) == WithChild(w, i, Put(Child(w, i), rest, x))
  {
    if v.Obj? {
      PutMember(v.members, t, rest, x);
    } else if v.Arr? {
      PutInArray(v.elements, t, rest, x);
    } else {
      PutInNew(v, t, rest, x);
    }
  }

  lemma PutInArray(es: seq<Json>, t: Token, rest: seq<Token>, x: Json)
    requires t.index <= INVALID_INDEX && (IsDash(t) ==> t.index == INVALID_INDEX)
    ensures var (w, there, i) := Provide(Arr(es), t);
            Put(Arr(es), [t] + rest, x) == WithChild(w, i, Put(Child(w, i), rest, x))
  {
    hide FindMember, Pad, IsDash;
    assert ([t] + rest)[1..] == rest;
    if IsDash(t) {
      var y := Put(Null, rest, x);
      assert (es + [Null])[|es|] == Null && (es + [Null])[|es| := y] == es + [y];
    } else if t.index < INVALID_INDEX {
      PutElement(es, t, rest, x);
    } else {
      PutNewMember(t, rest, x);
    }
  }

  lemma PutInNew(v: Json, t: Token, rest: seq<Token>, x: Json)
    requires !v.Obj? && !v.Arr? && t.index <= INVALID_INDEX && (IsDash(t) ==> t.index == INVALID_INDEX)
    ensures var (w, there, i) := Provide(v, t);
            Put(v, [t] + rest, x) == WithChild(w, i, Put(Child(w, i), rest, x))
  {
    hide FindMember, Pad, IsDash;
    assert ([t] + rest)[1..] == rest;
    if t.index < INVALID_INDEX {
      PutElement([], t, rest, x);
      PutNewElement(t, rest, x);
    } else {
      PutNewMember(t, rest, x);
    }
  }

  lemma PutNewMember(t: Token, rest: seq<Token>, x: Json)
    ensures var w := Obj([Member(t.name, Null)]);
            WithChild(w, 0, Put(Child(w, 0), rest, x)) == Obj([Member(t.name, Put(Null, rest, x))])
  {
    var m := Member(t.name, Null);
    assert [m][0 := m.(value := Put(Null, rest, x))] == [Member(t.name, Put(Null, rest, x))];
  }

  lemma PutNewElement(t: Token, rest: seq<Token>, x: Json)
    requires t.index < INVALID_INDEX && !IsDash(t)
    ensures Put(Arr([]), [t] + rest, x) == Arr(Nulls(t.index) + [Put(Null, rest, x)])
  {
    assert ([t] + rest)[1..] == rest;
    assert [] + Nulls(t.index) == Nulls(t.index);
  }

  /** `Set` makes the tree that it is to make. */
  lemma {:induction false} SetIsPut(v: Json, tokens: seq<Token>, x: Json)
    requires Parsable(tokens)
    ensures InRange(tokens) && Set(v, tokens, x) == Put(v, tokens, x)
    decreases |tokens|
  {
    hide Provide, IndexOf, WithChild, Child, Put, Set;
    ParsableInRange(tokens);
    if tokens == [] {
      SetNothing(v, tokens, x);
    } else {
      var (w, there, i) := Provide(v, tokens[0]);
      DashIsNoIndex(tokens[0]);
      SetStep(v, tokens, x);
      SetIsPut(Child(w, i), tokens[1..], x);
      assert tokens == [tokens[0]] + tokens[1..];
      PutStep(v, tokens[0], tokens[1..], x);
    }
  }

  lemma SetNothing(v: Json, tokens: seq<Token>, x: Json)
    requires tokens == []
    ensures InRange(tokens) && Set(v, tokens, x) == x == Put(v, tokens, x)
  {
  }

  /** `Create` makes the same tree with the value that was there, or with a null. */
  lemma CreateIsPut(v: Json, tokens: seq<Token>)
    requires Parsable(tokens)
    ensures InRange(tokens)
    ensures var c := Create(v, tokens);
            && Leads(c.tree, c.path) && c.tree == Put(v, tokens, At(c.tree, c.path))
            && (if c.exist then Get(v, tokens) == Some(c.path) && c.tree == v else At(c.tree, c.path) == Null)
  {
    hide Create, Put, Get, IndexOf;
    ParsableInRange(tokens);
    CreateLeads(v, tokens);
    CreateExisting(v, tokens);
    var c := Create(v, tokens);
    SetIsPut(v, tokens, At(c.tree, c.path));
    AssignSame(c.tree, c.path);
    CreatedIsNull(v, tokens);
  }

  lemma {:induction false} CreatedIsNull(v: Json, tokens: seq<Token>)
    requires Parsable(tokens)
    ensures InRange(tokens)
    ensures var c := Create(v, tokens); Leads(c.tree, c.path) && (!c.exist ==> At(c.tree, c.path) == Null)
    decreases |tokens|
  {
    hide Provide, IndexOf, WithChild, Child, Resolve;
    ParsableInRange(tokens);
    CreateLeads(v, tokens);
    if tokens != [] {
      var (w, there, i) := Provide(v, tokens[0]);
      var c := Create(Child(w, i), tokens[1..]);
      DashIsNoIndex(tokens[0]);
      ProvideExisting(v, tokens[0]);
      CreateLeads(Child(w, i), tokens[1..]);
      assert ([i] + c.path)[1..] == c.path;
      CreatedIsNull(Child(w, i), tokens[1..]);
      if !there {
        NewChildIsNull(v, tokens[0]);
        NullBelow(tokens[1..]);
      }
    }
  }

  /** What is made below a new null is null. */
  lemma NullBelow(tokens: seq<Token>)
    requires Parsable(tokens)
    ensures InRange(tokens)
    ensures var c := Create(Null, tokens); Leads(c.tree, c.path) && At(c.tree, c.path) == Null
    decreases |tokens|, 0
  {
    hide Provide, IndexOf, WithChild, Child, Resolve;
    ParsableInRange(tokens);
    CreateLeads(Null, tokens);
    if tokens != [] {
      var (w, there, i) := Provide(Null, tokens[0]);
      var c := Create(Child(w, i), tokens[1..]);
      NothingInNull(tokens[0]);
      NewChildIsNull(Null, tokens[0]);
      NullBelow(tokens[1..]);
      assert ([i] + c.path)[1..] == c.path;
    }
  }

  lemma NothingInNull(t: Token)
    ensures Resolve(Null, t).None?
  {
  }

  // ---------------------------------------------------------------------------------------------
  // Everything else stays
  // ---------------------------------------------------------------------------------------------

  /** Taking this step changes a container, and does not replace it. */
  predicate Keeps(v: Json, t: Token) {
    v.Obj? || (v.Arr? && (IsDash(t) || t.index != INVALID_INDEX))
  }

  /** Where this step leads: to the first member of that name or a new last one, to the element at the index, or for
      "-" to a new last one. */
  ghost predicate StepsTo(v: Json, t: Token, i: int)
    requires Keeps(v, t)
  {
    if v.Obj? then FirstMember(v.members, i, t.name) || (i == |v.members| && forall m <- v.members :: m.name != t.name)
    else i == if IsDash(t) then |v.elements| else t.index
  }

  /** All other children keep their positions, their values and, in an object, their names. */
  ghost predicate OthersSame(v: Json, w: Json, i: int) {
    && v.Obj? == w.Obj? && v.Arr? == w.Arr? && ChildCount(v) <= ChildCount(w)
    && (forall j :: 0 <= j < ChildCount(v) && j != i ==> Child(w, j) == Child(v, j))
    && (v.Obj? ==> forall j :: 0 <= j < |v.members| ==> w.members[j].name == v.members[j].name)
  }

  /** The step put `y` at `i` and nothing else but nulls before it. */
  ghost predicate PutAt(v: Json, t: Token, w: Json, i: nat, y: Json) {
    && OthersSame(v, w, i) && i < ChildCount(w) && Child(w, i) == y
    && (v.Obj? ==> w.members[i].name == t.name)
    && (v.Arr? ==> forall j :: |v.elements| <= j < i ==> w.elements[j] == Null)
    && ChildCount(w) == if i < ChildCount(v) then ChildCount(v) else i + 1
  }

  lemma MemberReplaced(ms: seq<Member>, t: Token, i: nat, y: Json)
    requires i < |ms| && ms[i].name == t.name
    ensures PutAt(Obj(ms), t, Obj(ms[..i] + [Member(t.name, y)] + ms[i + 1..]), i, y)
  {
  }

  lemma MemberAdded(ms: seq<Member>, t: Token, y: Json)
    ensures PutAt(Obj(ms), t, Obj(ms + [Member(t.name, y)]), |ms|, y)
  {
  }

  lemma ElementReplaced(es: seq<Json>, t: Token, i: nat, y: Json)
    requires i < |es|
    ensures PutAt(Arr(es), t, Arr(es[..i] + [y] + es[i + 1..]), i, y)
  {
  }

  lemma ElementAdded(es: seq<Json>, t: Token, i: nat, y: Json)
    requires i >= |es|
    ensures PutAt(Arr(es), t, Arr(es + Nulls(i - |es|) + [y]), i, y)
  {
  }

  /** One step keeps all other children; the one it leads to is put, from what was there or from null. */
  lemma PutKeepsChildren(v: Json, tokens: seq<Token>, x: Json) returns (i: nat)
    requires tokens != [] && Keeps(v, tokens[0])
    ensures StepsTo(v, tokens[0], i)
    ensures PutAt(v, tokens[0], Put(v, tokens, x), i,
                  Put(if i < ChildCount(v) then Child(v, i) else Null, tokens[1..], x))
  {
    hide PutAt, FindMember, IsDash;
    var t, rest := tokens[0], tokens[1..];
    match v
    case Obj(ms) =>
      i := FindMember(ms, t.name);
      forall j ensures FirstMember(ms, j, t.name) <==> j < |ms| && j == i {
        FirstIsFound(ms, j, t.name);
      }
      if i < |ms| {
        assert FirstMember(ms, i, t.name);
        MemberReplaced(ms, t, i, Put(ms[i].value, rest, x));
      } else {
        MemberAdded(ms, t, Put(Null, rest, x));
      }
    case Arr(es) =>
      i := if IsDash(t) then |es| else t.index;
      if i < |es| {
        ElementReplaced(es, t, i, Put(es[i], rest, x));
      } else {
        ElementAdded(es, t, i, Put(Null, rest, x));
        assert es + Nulls(0) == es;
      }
  }

  /** `Set` leaves every value alone that the pointer passes by: one whose path leaves the pointer's at a container that
      was there, and that the step does not replace. */
  lemma {:induction false} PutKeepsOthers(v: Json, tokens: seq<Token>, x: Json, k: nat, q: Path)
    requires Parsable(tokens) && Leads(v, q) && k < |q| && k < |tokens| && Get(v, tokens[..k]) == Some(q[..k])
    requires Leads(v, q[..k]) && Keeps(At(v, q[..k]), tokens[k]) && !StepsTo(At(v, q[..k]), tokens[k], q[k])
    ensures var w := Put(v, tokens, x); Leads(w, q) && At(w, q) == At(v, q)
    decreases k
  {
    hide Put, StepsTo, Resolve, Keeps, WithChild, Child, IndexOf;
    var t := tokens[0];
    if k == 0 {
      assert q[..0] == [];
      var i := PutKeepsChildren(v, tokens, x);
    } else {
      assert tokens[..k][0] == t && tokens[..k][1..] == tokens[1..][..k - 1];
      var i := Resolve(v, t).value;
      assert Get(v, tokens[..k]).Some?;
      assert q[..k][0] == i == q[0] && q[..k][1..] == q[1..][..k - 1];
      ResolvedKeeps(v, t);
      DashIsNoIndex(t);
      var j := PutKeepsChildren(v, tokens, x);
      StepIsUnique(v, t, i, j);
      PutKeepsOthers(Child(v, i), tokens[1..], x, k - 1, q[1..]);
    }
  }

  lemma ResolvedKeeps(v: Json, t: Token)
    requires Resolve(v, t).Some?
    ensures Keeps(v, t)
  {
  }

  lemma StepIsUnique(v: Json, t: Token, i: nat, j: nat)
    requires Resolve(v, t) == Some(i) && Keeps(v, t) && StepsTo(v, t, j) && (IsDash(t) ==> t.index == INVALID_INDEX)
    ensures i == j
  {
    if v.Obj? {
      FirstIsFound(v.members, j, t.name);
    }
  }

  /** The frame law of `Set`. */
  lemma SetKeepsOthers(v: Json, tokens: seq<Token>, x: Json, k: nat, q: Path)
    requires Parsable(tokens) && Leads(v, q) && k < |q| && k < |tokens| && Get(v, tokens[..k]) == Some(q[..k])
    requires Leads(v, q[..k]) && Keeps(At(v, q[..k]), tokens[k]) && !StepsTo(At(v, q[..k]), tokens[k], q[k])
    ensures InRange(tokens) && Leads(Set(v, tokens, x), q) && At(Set(v, tokens, x), q) == At(v, q)
  {
    hide Set, Put, Get, At, Leads, Keeps, StepsTo, IndexOf;
    SetIsPut(v, tokens, x);
    PutKeepsOthers(v, tokens, x, k, q);
  }

  /** The frame law of `Create`. */
  lemma CreateKeepsOthers(v: Json, tokens: seq<Token>, k: nat, q: Path)
    requires Parsable(tokens) && Leads(v, q) && k < |q| && k < |tokens| && Get(v, tokens[..k]) == Some(q[..k])
    requires Leads(v, q[..k]) && Keeps(At(v, q[..k]), tokens[k]) && !StepsTo(At(v, q[..k]), tokens[k], q[k])
    ensures InRange(tokens) && Leads(Create(v, tokens).tree, q) && At(Create(v, tokens).tree, q) == At(v, q)
  {
    hide Create, Put, Get, At, Leads, Keeps, StepsTo, IndexOf;
    CreateIsPut(v, tokens);
    var c := Create(v, tokens);
    PutKeepsOthers(v, tokens, At(c.tree, c.path), k, q);
  }

  /** Through the token "-" a value goes to the end of an array. */
  lemma SetAppends(es: seq<Json>, t: Token, x: Json)
    requires Parsable([t]) && IsDash(t)
    ensures InRange([t]) && Set(Arr(es), [t], x) == Arr(es + [x])
  {
    hide Set, IndexOf;
    SetIsPut(Arr(es), [t], x);
    assert [t][1..] == [] && Put(Null, [], x) == x;
  }

  // ---------------------------------------------------------------------------------------------
  // Erase
  // ---------------------------------------------------------------------------------------------

  /** The child at `i` is gone, and those behind it moved up by one. */
  ghost predicate TakenOut(v: Json, w: Json, i: nat) {
    && v.Obj? == w.Obj? && v.Arr? == w.Arr? && ChildCount(w) + 1 == ChildCount(v) && i < ChildCount(v)
    && (forall j :: 0 <= j < i ==> Child(w, j) == Child(v, j))
    && (forall j :: i <= j < ChildCount(w) ==> Child(w, j) == Child(v, j + 1))
    && (v.Obj? ==>
          && (forall j :: 0 <= j < i ==> w.members[j] == v.members[j])
          && (forall j :: i <= j < |w.members| ==> w.members[j] == v.members[j + 1]))
  }

  lemma ChildTakenOut(v: Json, i: nat)
    requires i < ChildCount(v)
    ensures TakenOut(v, WithoutChild(v, i), i)
  {
  }

  /** `Erase` takes the value that `Get` finds out of its container, which stays where it is. */
  lemma {:induction false} EraseTakesOut(v: Json, tokens: seq<Token>)
    requires tokens != [] && Get(v, tokens).Some?
    ensures Erase(v, tokens).Some?
    ensures var p := Get(v, tokens).value; var w := Erase(v, tokens).value; var last := |tokens| - 1;
            && |p| == |tokens| && Leads(v, p[..last]) && Leads(w, p[..last])
            && TakenOut(At(v, p[..last]), At(w, p[..last]), p[last])
    decreases |tokens|
  {
    hide Resolve, TakenOut, WithoutChild, Child, WithChild;
    var i := Resolve(v, tokens[0]).value;
    var p := Get(v, tokens).value;
    if |tokens| == 1 {
      assert tokens[1..] == [];
      assert p == [i] && p[..0] == [];
      ChildTakenOut(v, i);
    } else {
      EraseTakesOut(Child(v, i), tokens[1..]);
      var below := Get(Child(v, i), tokens[1..]).value;
      assert p == [i] + below && p[..|tokens| - 1] == [i] + below[..|tokens| - 2];
      assert p[..|tokens| - 1][1..] == below[..|tokens| - 2];
    }
  }

  /** And it leaves every value alone whose path leaves that one's before the end. */
  lemma {:induction false} EraseKeepsOthers(v: Json, tokens: seq<Token>, k: nat, q: Path)
    requires Get(v, tokens).Some? && Leads(v, q) && k < |q| && k + 1 < |tokens|
    requires |Get(v, tokens).value| == |tokens|
    requires q[..k] == Get(v, tokens).value[..k] && q[k] != Get(v, tokens).value[k]
    ensures Erase(v, tokens).Some? && Leads(Erase(v, tokens).value, q) && At(Erase(v, tokens).value, q) == At(v, q)
    decreases k
  {
    hide Resolve, WithoutChild, Child, WithChild;
    EraseWhatIsThere(v, tokens);
    var i := Resolve(v, tokens[0]).value;
    var p := Get(v, tokens).value;
    var below := Get(Child(v, i), tokens[1..]).value;
    assert p == [i] + below && p[1..] == below;
    if k > 0 {
      assert q[0] == q[..k][0] == p[..k][0] == i;
      assert q[1..][..k - 1] == q[..k][1..] == p[..k][1..] == below[..k - 1];
      EraseKeepsOthers(Child(v, i), tokens[1..], k - 1, q[1..]);
    }
  }
}
