/**
 `Get`, `Create`, `Set` and `Erase` of 3rdparty/rapidjson/pointer.h on value trees. A reference to a value
 inside a tree is the path of child positions that leads to it.
 */
module PointerAccess {
  import opened Json
  import opened PointerText

  type Path = seq<nat>

  function ChildCount(v: Json): nat {
    match v
    case Arr(es) => |es|
    case Obj(ms) => |ms|
    case _ => 0
  }

  function Child(v: Json, i: nat): (c: Json)
    requires i < ChildCount(v)
    ensures c < v
  {
    match v
    case Arr(es) => es[i]
    case Obj(ms) => ms[i].value
  }

  function WithChild(v: Json, i: nat, c: Json): (w: Json)
    requires i < ChildCount(v)
    ensures ChildCount(w) == ChildCount(v) && Child(w, i) == c
    ensures forall j :: 0 <= j < ChildCount(v) && j != i ==> Child(w, j) == Child(v, j)
  {
    match v
    case Arr(es) => Arr(es[i := c])
    case Obj(ms) => Obj(ms[i := ms[i].(value := c)])
  }

  /** The child that a token resolves to. */
  function Resolve(v: Json, t: Token): (i: Option<nat>)
    ensures i.Some? ==> i.value < ChildCount(v)
  {
    match v
    case Obj(ms) => var i := FindMember(ms, t.name); if i == |ms| then None else Some(i)
    case Arr(es) => if t.index == INVALID_INDEX || t.index >= |es| then None else Some(t.index)
    case _ => None
  }

  /** `Get` */
  function Get(v: Json, tokens: seq<Token>): Option<Path>
    decreases |tokens|
  {
    if tokens == [] then Some([])
    else
      var i := Resolve(v, tokens[0]);
      if i.None? then None
      else
        var p := Get(Child(v, i.value), tokens[1..]);
        if p.None? then None else Some([i.value] + p.value)
  }

  predicate Leads(v: Json, p: Path)
    decreases |p|
  {
    p == [] || (p[0] < ChildCount(v) && Leads(Child(v, p[0]), p[1..]))
  }

  function At(v: Json, p: Path): Json
    requires Leads(v, p)
    decreases |p|
  {
    if p == [] then v else At(Child(v, p[0]), p[1..])
  }

  /** The tree after an assignment through the reference `p`. */
  function Assign(v: Json, p: Path, x: Json): Json
    requires Leads(v, p)
    decreases |p|
  {
    if p == [] then x else WithChild(v, p[0], Assign(Child(v, p[0]), p[1..], x))
  }

  method FindValue(root: Json, tokens: seq<Token>) returns (found: bool, v: Json, unresolved: nat)
    ensures found == Get(root, tokens).Some?
    ensures found ==> Leads(root, Get(root, tokens).value) && v == At(root, Get(root, tokens).value)
    ensures !found ==> unresolved < |tokens| && Get(root, tokens[..unresolved]).Some?
                       && Get(root, tokens[..unresolved + 1]).None?
  {
    hide Resolve, Child;
    v, unresolved := root, 0;
    ghost var p: Path := [];
    assert tokens[0..] == tokens;
    ExtendNothing(Get(root, tokens));
    while unresolved < |tokens|
      invariant unresolved <= |tokens| && Get(root, tokens[..unresolved]) == Some(p)
      invariant Leads(root, p) && At(root, p) == v
      invariant Get(root, tokens) == Extend(p, Get(v, tokens[unresolved..]))
    {
      var i := Resolve(v, tokens[unresolved]);
      assert tokens[..unresolved + 1] == tokens[..unresolved] + [tokens[unresolved]];
      GetOneMore(root, tokens[..unresolved], tokens[unresolved]);
      assert tokens[unresolved..][1..] == tokens[unresolved + 1..];
      if i.None? {
        return false, v, unresolved;
      }
      LeadsOneMore(root, p, i.value);
      ExtendOne(p, i.value, Get(Child(v, i.value), tokens[unresolved + 1..]));
      p := p + [i.value];
      v := Child(v, i.value);
      unresolved := unresolved + 1;
    }
    assert tokens[..|tokens|] == tokens;
    found := true;
  }

  function Extend(p: Path, q: Option<Path>): Option<Path> {
    if q.None? then None else Some(p + q.value)
  }

  lemma ExtendNothing(q: Option<Path>)
    ensures Extend([], q) == q
  {
    if q.Some? {
      assert [] + q.value == q.value;
    }
  }

  lemma ExtendOne(p: Path, i: nat, q: Option<Path>)
    ensures Extend(p, Extend([i], q)) == Extend(p + [i], q)
  {
    if q.Some? {
      assert p + ([i] + q.value) == p + [i] + q.value;
    }
  }

  lemma {:induction false} LeadsOneMore(v: Json, p: Path, i: nat)
    requires Leads(v, p) && i < ChildCount(At(v, p))
    ensures Leads(v, p + [i]) && At(v, p + [i]) == Child(At(v, p), i)
    decreases |p|
  {
    if p == [] {
      assert p + [i] == [i];
    } else {
      LeadsOneMore(Child(v, p[0]), p[1..], i);
      assert (p + [i])[1..] == p[1..] + [i];
    }
  }

  lemma {:induction false} GetOneMore(v: Json, tokens: seq<Token>, t: Token)
    requires Get(v, tokens).Some?
    ensures Leads(v, Get(v, tokens).value)
    ensures var i := Resolve(At(v, Get(v, tokens).value), t);
            Get(v, tokens + [t]) == if i.None? then None else Some(Get(v, tokens).value + [i.value])
    decreases |tokens|
  {
    if tokens == [] {
      assert tokens + [t] == [t] && [t][1..] == [];
      ExtendNothing(Get(v, [t]));
      var i := Resolve(v, t);
      if i.Some? {
        assert [i.value] + [] == [] + [i.value];
      }
    } else {
      var i := Resolve(v, tokens[0]).value;
      GetOneMore(Child(v, i), tokens[1..], t);
      assert (tokens + [t])[1..] == tokens[1..] + [t];
      var q := Get(Child(v, i), tokens[1..]).value;
      assert ([i] + q)[1..] == q;
      var j := Resolve(At(Child(v, i), q), t);
      if j.Some? {
        assert [i] + (q + [j.value]) == [i] + q + [j.value];
      }
    }
  }

  // ---------------------------------------------------------------------------------------------
  // Create
  // ---------------------------------------------------------------------------------------------

  datatype Created = Created(tree: Json, exist: bool, path: Path)

  predicate IsDash(t: Token) {
    t.name == "-"
  }

  /** `v` changed into the kind of value that can have a child for the token. */
  function Container(v: Json, t: Token): Json {
    if t.index == INVALID_INDEX then if v.Obj? then v else Obj([])
    else if v.Arr? || v.Obj? then v
    else Arr([])
  }

  /** Enough nulls to give an array `n` elements. */
  function Pad(es: seq<Json>, n: nat): (padded: seq<Json>)
    ensures |padded| >= n && es <= padded && (|es| >= n ==> padded == es)
    decreases n - |es|
  {
    if |es| >= n then es else Pad(es + [Null], n)
  }

  /** One token: the value with a child for it, that child's position, and whether it was there. */
  function Provide(v: Json, t: Token): (r: (Json, bool, nat))
    requires t.index <= INVALID_INDEX
    ensures r.2 < ChildCount(r.0)
  {
    if v.Arr? && IsDash(t) then (Arr(v.elements + [Null]), false, |v.elements|)
    else
      match Container(v, t)
      case Arr(es) => (Arr(Pad(es, t.index + 1)), t.index < |es|, t.index)
      case Obj(ms) =>
        var i := FindMember(ms, t.name);
        (Obj(if i < |ms| then ms else ms + [Member(t.name, Null)]), i < |ms|, i)
  }

  predicate InRange(tokens: seq<Token>) {
    forall i :: 0 <= i < |tokens| ==> tokens[i].index <= INVALID_INDEX
  }

  /** `Create`: every missing value on the way is made, and the reference to the last one is returned. */
  function Create(v: Json, tokens: seq<Token>): Created
    requires InRange(tokens)
    decreases |tokens|
  {
    if tokens == [] then Created(v, true, [])
    else
      var (w, there, i) := Provide(v, tokens[0]);
      var c := Create(Child(w, i), tokens[1..]);
      Created(WithChild(w, i, c.tree), there && c.exist, [i] + c.path)
  }

  /** A value is there before exactly when its token resolves; nothing is changed then. */
  lemma ProvideExisting(v: Json, t: Token)
    requires t.index <= INVALID_INDEX && (IsDash(t) ==> t.index == INVALID_INDEX)
    ensures var (w, there, i) := Provide(v, t);
            there == Resolve(v, t).Some? && (there ==> w == v && Resolve(v, t).value == i)
  {
  }

  /** Indices as parsing assigns them: "-" is none. */
  lemma DashIsNoIndex(t: Token)
    requires t.index == IndexOf(t.name)
    ensures t.index <= INVALID_INDEX && (IsDash(t) ==> t.index == INVALID_INDEX)
  {
  }

  lemma ParsableInRange(tokens: seq<Token>)
    requires Parsable(tokens)
    ensures InRange(tokens)
  {
    hide IndexOf;
  }

  lemma {:induction false} CreateLeads(v: Json, tokens: seq<Token>)
    requires InRange(tokens)
    ensures Leads(Create(v, tokens).tree, Create(v, tokens).path)
    decreases |tokens|
  {
    hide Provide;
    if tokens != [] {
      var (w, there, i) := Provide(v, tokens[0]);
      CreateLeads(Child(w, i), tokens[1..]);
    }
  }

  lemma SameChild(v: Json, i: nat)
    requires i < ChildCount(v)
    ensures WithChild(v, i, Child(v, i)) == v
  {
  }

  /** Law 1: `alreadyExist` is whether `Get` finds the value, and then the tree is unchanged. */
  lemma {:induction false} CreateExisting(v: Json, tokens: seq<Token>)
    requires Parsable(tokens)
    ensures InRange(tokens)
    ensures var c := Create(v, tokens);
            && c.exist == Get(v, tokens).Some?
            && (c.exist ==> c.tree == v && Get(v, tokens) == Some(c.path))
    decreases |tokens|
  {
    hide Provide, Resolve, IndexOf, WithChild, Child;
    ParsableInRange(tokens);
    if tokens != [] {
      DashIsNoIndex(tokens[0]);
      ProvideExisting(v, tokens[0]);
      var (w, there, i) := Provide(v, tokens[0]);
      CreateExisting(Child(w, i), tokens[1..]);
      if there {
        SameChild(v, i);
      }
    }
  }

  /** On its way `Create` meets an array with the token "-", which appends and can never be found again. */
  predicate Appends(v: Json, tokens: seq<Token>)
    requires InRange(tokens)
    decreases |tokens|
  {
    tokens != [] &&
    ((v.Arr? && IsDash(tokens[0]))
     || var (w, there, i) := Provide(v, tokens[0]); Appends(Child(w, i), tokens[1..]))
  }

  /** A value resolved in the tree that was provided stays where it is when the child changes. */
  lemma ProvideResolves(v: Json, t: Token, c: Json)
    requires t.index <= INVALID_INDEX && (IsDash(t) ==> t.index == INVALID_INDEX)
    ensures var (w, there, i) := Provide(v, t);
            Resolve(WithChild(w, i, c), t) == if v.Arr? && IsDash(t) then None else Some(i)
  {
    var (w, there, i) := Provide(v, t);
    if w.Obj? {
      FindAppended(w.members, i, t.name, c);
    }
  }

  lemma {:induction false} FindAppended(ms: seq<Member>, i: nat, name: string, c: Json)
    requires i < |ms| && ms[i].name == name && forall j :: 0 <= j < i ==> ms[j].name != name
    ensures FindMember(ms[i := ms[i].(value := c)], name) == i
  {
    if i > 0 {
      FindAppended(ms[1..], i - 1, name, c);
      assert ms[i := ms[i].(value := c)][1..] == ms[1..][i - 1 := ms[i].(value := c)];
    }
  }

  /** Law 2: `Get` after `Create` finds the created value, unless "-" appended to an array; then it finds
      nothing. */
  lemma {:induction false} GetAfterCreate(v: Json, tokens: seq<Token>)
    requires Parsable(tokens)
    ensures InRange(tokens)
    ensures Get(Create(v, tokens).tree, tokens) == if Appends(v, tokens) then None else Some(Create(v, tokens).path)
    decreases |tokens|
  {
    hide Provide, Resolve, IndexOf;
    ParsableInRange(tokens);
    if tokens != [] {
      var (w, there, i) := Provide(v, tokens[0]);
      var c := Create(Child(w, i), tokens[1..]);
      DashIsNoIndex(tokens[0]);
      ProvideResolves(v, tokens[0], c.tree);
      GetAfterCreate(Child(w, i), tokens[1..]);
    }
  }

  /** Nothing is appended below a value that is no container: what `Create` makes there holds nothing but nulls. */
  lemma {:induction false} NullNeverAppends(tokens: seq<Token>)
    requires Parsable(tokens)
    ensures InRange(tokens) && !Appends(Null, tokens)
    decreases |tokens|
  {
    hide IndexOf;
    ParsableInRange(tokens);
    if tokens != [] {
      NewChildIsNull(Null, tokens[0]);
      NullNeverAppends(tokens[1..]);
    }
  }

  lemma NewChildIsNull(v: Json, t: Token)
    requires t.index <= INVALID_INDEX && Resolve(v, t).None?
    ensures var (w, there, i) := Provide(v, t); Child(w, i) == Null
  {
    if v.Arr? && t.index != INVALID_INDEX {
      PaddedWithNull(v.elements, t.index + 1);
    } else if t.index != INVALID_INDEX && !v.Obj? {
      PaddedWithNull([], t.index + 1);
    }
  }

  lemma {:induction false} PaddedWithNull(es: seq<Json>, n: nat)
    ensures forall i :: |es| <= i < n ==> Pad(es, n)[i] == Null
    decreases n - |es|
  {
    if |es| < n {
      PaddedWithNull(es + [Null], n);
    }
  }

  /** The token "-" at position `k` of the pointer meets an array that is there before the call. */
  predicate DashMeetsArray(v: Json, tokens: seq<Token>, k: nat) {
    k < |tokens| && IsDash(tokens[k]) && ArrayThere(v, Get(v, tokens[..k]))
  }

  predicate ArrayThere(v: Json, p: Option<Path>) {
    p.Some? && Leads(v, p.value) && At(v, p.value).Arr?
  }

  lemma DashBelow(v: Json, tokens: seq<Token>, k: nat)
    requires tokens != [] && Resolve(v, tokens[0]).Some?
    ensures DashMeetsArray(v, tokens, k + 1)
            == DashMeetsArray(Child(v, Resolve(v, tokens[0]).value), tokens[1..], k)
  {
    hide Resolve, IsDash;
    if k + 1 < |tokens| {
      assert tokens[..k + 1][1..] == tokens[1..][..k];
      var i := Resolve(v, tokens[0]).value;
      var p := Get(Child(v, i), tokens[1..][..k]);
      if p.Some? {
        assert ([i] + p.value)[1..] == p.value;
      }
    }
  }

  lemma DashAtRoot(v: Json, tokens: seq<Token>)
    ensures DashMeetsArray(v, tokens, 0) <==> tokens != [] && IsDash(tokens[0]) && v.Arr?
  {
  }

  lemma DashBelowNothing(v: Json, tokens: seq<Token>, k: nat)
    requires tokens != [] && Resolve(v, tokens[0]).None? && k > 0
    ensures !DashMeetsArray(v, tokens, k)
  {
    hide Resolve;
  }

  /** Whether `Create` appends through "-" can be seen before the call: some such token meets an array. */
  lemma {:induction false} AppendsToWhatIsThere(v: Json, tokens: seq<Token>)
    requires Parsable(tokens)
    ensures InRange(tokens) && (Appends(v, tokens) <==> exists k :: DashMeetsArray(v, tokens, k))
    decreases |tokens|
  {
    hide DashMeetsArray, Resolve, Provide, IndexOf, IsDash;
    ParsableInRange(tokens);
    DashAtRoot(v, tokens);
    if tokens != [] && !(v.Arr? && IsDash(tokens[0])) {
      var (w, there, i) := Provide(v, tokens[0]);
      DashIsNoIndex(tokens[0]);
      ProvideExisting(v, tokens[0]);
      if there {
        AppendsToWhatIsThere(Child(v, i), tokens[1..]);
        ShiftDash(v, tokens);
      } else {
        NewChildIsNull(v, tokens[0]);
        NullNeverAppends(tokens[1..]);
        forall k: nat | k > 0 ensures !DashMeetsArray(v, tokens, k) {
          DashBelowNothing(v, tokens, k);
        }
      }
    } else if tokens == [] {
      NoDash(v);
    }
  }

  lemma NoDash(v: Json)
    ensures forall k :: !DashMeetsArray(v, [], k)
  {
  }

  lemma ShiftDash(v: Json, tokens: seq<Token>)
    requires tokens != [] && Resolve(v, tokens[0]).Some? && !DashMeetsArray(v, tokens, 0)
    ensures (exists k :: DashMeetsArray(v, tokens, k))
            <==> exists k :: DashMeetsArray(Child(v, Resolve(v, tokens[0]).value), tokens[1..], k)
  {
    hide DashMeetsArray, Resolve;
    var c := Child(v, Resolve(v, tokens[0]).value);
    if k: nat :| DashMeetsArray(v, tokens, k) {
      DashBelow(v, tokens, k - 1);
      assert DashMeetsArray(c, tokens[1..], k - 1);
    }
    if k: nat :| DashMeetsArray(c, tokens[1..], k) {
      DashBelow(v, tokens, k);
      assert DashMeetsArray(v, tokens, k + 1);
    }
  }

  lemma {:induction false} NoDashNeverAppends(v: Json, tokens: seq<Token>)
    requires InRange(tokens) && forall i :: 0 <= i < |tokens| ==> !IsDash(tokens[i])
    ensures !Appends(v, tokens)
    decreases |tokens|
  {
    hide Provide, IsDash;
    if tokens != [] {
      var (w, there, i) := Provide(v, tokens[0]);
      NoDashNeverAppends(Child(w, i), tokens[1..]);
    }
  }

  // ---------------------------------------------------------------------------------------------
  // Set
  // ---------------------------------------------------------------------------------------------

  /** `Set` */
  function Set(v: Json, tokens: seq<Token>, x: Json): Json
    requires InRange(tokens)
  {
    var c := Create(v, tokens);
    CreateLeads(v, tokens);
    Assign(c.tree, c.path, x)
  }

  /** An assignment through a reference is seen there. */
  lemma {:induction false} AssignAt(v: Json, p: Path, x: Json)
    requires Leads(v, p)
    ensures Leads(Assign(v, p, x), p) && At(Assign(v, p, x), p) == x
    decreases |p|
  {
    hide WithChild, Child;
    if p != [] {
      AssignAt(Child(v, p[0]), p[1..], x);
    }
  }

  lemma {:induction false} AssignSame(v: Json, p: Path)
    requires Leads(v, p)
    ensures Assign(v, p, At(v, p)) == v
    decreases |p|
  {
    hide WithChild, Child;
    if p != [] {
      AssignSame(Child(v, p[0]), p[1..]);
      SameChild(v, p[0]);
    }
  }

  lemma ChildTwice(v: Json, i: nat, a: Json, b: Json)
    requires i < ChildCount(v)
    ensures WithChild(WithChild(v, i, a), i, b) == WithChild(v, i, b)
  {
  }

  lemma {:induction false} AssignTwice(v: Json, p: Path, x: Json, y: Json)
    requires Leads(v, p)
    ensures Leads(Assign(v, p, x), p) && Assign(Assign(v, p, x), p, y) == Assign(v, p, y)
    decreases |p|
  {
    hide WithChild, Child;
    AssignAt(v, p, x);
    if p != [] {
      AssignTwice(Child(v, p[0]), p[1..], x, y);
      ChildTwice(v, p[0], Assign(Child(v, p[0]), p[1..], x), Assign(Child(v, p[0]), p[1..], y));
    }
  }

  /** Changing the value at the end of a path does not change where the path's tokens lead. */
  lemma {:induction false} GetAfterAssign(v: Json, tokens: seq<Token>, x: Json)
    requires Get(v, tokens).Some?
    ensures Leads(v, Get(v, tokens).value)
    ensures Get(Assign(v, Get(v, tokens).value, x), tokens) == Get(v, tokens)
    decreases |tokens|
  {
    if tokens != [] {
      var i := Resolve(v, tokens[0]).value;
      GetAfterAssign(Child(v, i), tokens[1..], x);
      var p := Get(Child(v, i), tokens[1..]).value;
      assert ([i] + p)[1..] == p;
      ResolveSame(v, tokens[0], Assign(Child(v, i), p, x));
    }
  }

  lemma ResolveSame(v: Json, t: Token, c: Json)
    requires Resolve(v, t).Some?
    ensures Resolve(WithChild(v, Resolve(v, t).value, c), t) == Resolve(v, t)
  {
    if v.Obj? {
      FindAppended(v.members, Resolve(v, t).value, t.name, c);
    }
  }

  /** Law 3: `Get` after `Set` finds the value that was set. */
  lemma GetAfterSet(v: Json, tokens: seq<Token>, x: Json)
    requires Parsable(tokens) && InRange(tokens) && !Appends(v, tokens)
    ensures var p := Get(Set(v, tokens, x), tokens);
            p.Some? && Leads(Set(v, tokens, x), p.value) && At(Set(v, tokens, x), p.value) == x
  {
    hide Create, Get, Assign, Appends;
    var c := Create(v, tokens);
    GetAfterCreate(v, tokens);
    CreateLeads(v, tokens);
    GetAfterAssign(c.tree, tokens, x);
    AssignAt(c.tree, c.path, x);
  }

  /** Law 4: setting what is already there changes nothing. */
  lemma SetWhatIsThere(v: Json, tokens: seq<Token>)
    requires Parsable(tokens) && Get(v, tokens).Some?
    ensures InRange(tokens) && Leads(v, Get(v, tokens).value)
    ensures Set(v, tokens, At(v, Get(v, tokens).value)) == v
  {
    hide Create, Get, Assign;
    CreateExisting(v, tokens);
    CreateLeads(v, tokens);
    AssignSame(v, Create(v, tokens).path);
  }

  /** Law 5: the second of two settings wins. */
  lemma SetTwice(v: Json, tokens: seq<Token>, x: Json, y: Json)
    requires Parsable(tokens) && InRange(tokens) && !Appends(v, tokens)
    ensures Set(Set(v, tokens, x), tokens, y) == Set(v, tokens, y)
  {
    hide Create, Get, Assign, Appends;
    var c := Create(v, tokens);
    var w := Set(v, tokens, x);
    CreateLeads(v, tokens);
    GetAfterCreate(v, tokens);
    GetAfterAssign(c.tree, tokens, x);
    CreateExisting(w, tokens);
    AssignTwice(c.tree, c.path, x, y);
  }

  // ---------------------------------------------------------------------------------------------
  // Erase
  // ---------------------------------------------------------------------------------------------

  /** The value without its child at `i`; the later ones move up. */
  function WithoutChild(v: Json, i: nat): (w: Json)
    requires i < ChildCount(v)
    ensures ChildCount(w) == ChildCount(v) - 1
  {
    match v
    case Arr(es) => Arr(es[..i] + es[i + 1..])
    case Obj(ms) => Obj(ms[..i] + ms[i + 1..])
  }

  /** `Erase`: the tree without the value, or nothing when there is none. */
  function Erase(v: Json, tokens: seq<Token>): Option<Json>
    decreases |tokens|
  {
    if tokens == [] then None
    else
      var i := Resolve(v, tokens[0]);
      if i.None? then None
      else if |tokens| == 1 then Some(WithoutChild(v, i.value))
      else
        var c := Erase(Child(v, i.value), tokens[1..]);
        if c.None? then None else Some(WithChild(v, i.value, c.value))
  }

  /** `Erase` succeeds exactly where `Get` finds a value that is not the root. */
  lemma {:induction false} EraseWhatIsThere(v: Json, tokens: seq<Token>)
    ensures Erase(v, tokens).Some? <==> tokens != [] && Get(v, tokens).Some?
    decreases |tokens|
  {
    hide Resolve;
    if tokens != [] {
      var i := Resolve(v, tokens[0]);
      if i.Some? {
        EraseWhatIsThere(Child(v, i.value), tokens[1..]);
      }
    }
  }

  /** A value set where nothing was, at the end of an object, is erased again without a trace. */
  lemma EraseAfterSet(ms: seq<Member>, t: Token, x: Json)
    requires Parsable([t]) && FindMember(ms, t.name) == |ms|
    ensures InRange([t]) && Erase(Set(Obj(ms), [t], x), [t]) == Some(Obj(ms))
  {
    hide IndexOf, FindMember, Set, Erase, Resolve;
    ParsableInRange([t]);
    SetNewMember(ms, t, x);
    var all := ms + [Member(t.name, x)];
    assert (ms + [Member(t.name, Null)])[|ms| := Member(t.name, x)] == all;
    FindLast(ms, t.name, x);
    ResolveMember(all, t);
    EraseOne(Obj(all), t);
    assert all[..|ms|] + all[|ms| + 1..] == ms;
  }

  lemma EraseOne(v: Json, t: Token)
    requires Resolve(v, t).Some?
    ensures Erase(v, [t]) == Some(WithoutChild(v, Resolve(v, t).value))
  {
    hide Resolve, WithoutChild;
  }

  lemma FindLast(ms: seq<Member>, name: string, x: Json)
    requires FindMember(ms, name) == |ms|
    ensures FindMember(ms + [Member(name, x)], name) == |ms|
  {
    hide FindMember;
    var i := FindMember(ms + [Member(name, x)], name);
    assert (ms + [Member(name, x)])[|ms|].name == name;
    assert forall j :: 0 <= j < |ms| ==> (ms + [Member(name, x)])[j] == ms[j] && ms[j].name != name;
  }

  lemma ResolveMember(ms: seq<Member>, t: Token)
    requires FindMember(ms, t.name) < |ms|
    ensures Resolve(Obj(ms), t) == Some(FindMember(ms, t.name))
  {
  }

  lemma SetNewMember(ms: seq<Member>, t: Token, x: Json)
    requires InRange([t]) && FindMember(ms, t.name) == |ms|
    ensures Set(Obj(ms), [t], x) == Obj((ms + [Member(t.name, Null)])[|ms| := Member(t.name, x)])
  {
    hide FindMember;
    var i: nat := |ms|;
    var w := Obj(ms + [Member(t.name, Null)]);
    assert [t][0] == t && [t][1..] == [] && [i][1..] == [] && [i] + [] == [i];
    assert Provide(Obj(ms), t) == (w, false, i);
    SameChild(w, i);
    assert Create(Null, []) == Created(Null, true, []);
    assert Create(Obj(ms), [t]) == Created(w, false, [i]);
    assert Assign(Null, [], x) == x;
  }
}
