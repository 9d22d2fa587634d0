/**
 * Normalizing EIP-712 typed data: JSON values are copied and checked, struct types are collected, and
 * with a declared primary type only the structs it reaches are kept. The type graph may be cyclic.
 */
module TypedData {
  import opened Wrappers

  // A JavaScript value; `plain` objects are the ones JSON makes. Keys of an object are distinct.
  datatype Js =
    | Undefined
    | Null
    | Bool(flag: bool)
    | Str(text: string)
    | Num(number: int)
    | NonFinite
    | BigInt(integer: int)
    | Arr(items: seq<Js>)
    | Obj(plain: bool, members: seq<Member>)
    | Other

  datatype Member = Member(key: string, value: Js)

  // ----- Values -----

  // typedDataValue: the copy of a value, or None when it is not a JSON value.
  function CopyValue(v: Js): Option<Js>
    decreases v, 1
  {
    match v
    case Null => Some(v)
    case Bool(_) => Some(v)
    case Str(_) => Some(v)
    case BigInt(_) => Some(v)
    case Num(_) => Some(v)
    case Arr(items) =>
      var copies := CopyItems(items);
      if copies.None? then None else Some(Arr(copies.value))
    case Obj(plain, members) =>
      var copies := CopyMembers(members);
      if !plain || copies.None? then None else Some(Obj(true, copies.value))
    case _ => None
  }

  function CopyItems(items: seq<Js>): Option<seq<Js>>
    decreases items, 0
  {
    if items == [] then Some([])
    else
      var first, rest := CopyValue(items[0]), CopyItems(items[1..]);
      if first.None? || rest.None? then None else Some([first.value] + rest.value)
  }

  // An undefined member reads as an absent field, so it is dropped.
  function CopyMembers(members: seq<Member>): Option<seq<Member>>
    decreases members, 0
  {
    if members == [] then Some([])
    else if members[0].value.Undefined? then CopyMembers(members[1..])
    else
      var first, rest := CopyValue(members[0].value), CopyMembers(members[1..]);
      if first.None? || rest.None? then None else Some([Member(members[0].key, first.value)] + rest.value)
  }

  function CopyObject(v: Js): Option<Js> { if v.Obj? then CopyValue(v) else None }

  /** A copy is a JSON value throughout: copying it again gives the same value. */
  lemma {:induction false} CopyIsStable(v: Js)
    requires CopyValue(v).Some?
    ensures CopyValue(CopyValue(v).value) == CopyValue(v)
    ensures !CopyValue(v).value.Undefined?
    decreases v, 1
  {
    match v
    case Arr(items) => CopyItemsStable(items);
    case Obj(_, members) => CopyMembersStable(members);
    case _ =>
  }

  lemma {:induction false} CopyItemsStable(items: seq<Js>)
    requires CopyItems(items).Some?
    ensures CopyItems(CopyItems(items).value) == CopyItems(items)
    decreases items, 0
  {
    if items != [] {
      CopyIsStable(items[0]);
      CopyItemsStable(items[1..]);
      assert CopyItems(items).value[1..] == CopyItems(items[1..]).value;
    }
  }

  lemma {:induction false} CopyMembersStable(members: seq<Member>)
    requires CopyMembers(members).Some?
    ensures CopyMembers(CopyMembers(members).value) == CopyMembers(members)
    decreases members, 0
  {
    if members != [] {
      CopyMembersStable(members[1..]);
      if !members[0].value.Undefined? {
        CopyIsStable(members[0].value);
        assert CopyMembers(members).value[1..] == CopyMembers(members[1..]).value;
      }
    }
  }

  // ----- What a copy keeps -----

  datatype Step = Key(key: string) | At(index: nat)

  // Following the keys and indices of the path from v arrives at x.
  ghost predicate Leads(v: Js, path: seq<Step>, x: Js)
    decreases |path|
  {
    if path == [] then v == x
    else if path[0].Key? then
      v.Obj? && exists m :: m in v.members && m.key == path[0].key && Leads(m.value, path[1..], x)
    else v.Arr? && path[0].index < |v.items| && Leads(v.items[path[0].index], path[1..], x)
  }

  function PresentKeys(members: seq<Member>): seq<string> {
    if members == [] then []
    else (if members[0].value.Undefined? then [] else [members[0].key]) + PresentKeys(members[1..])
  }

  // The same leaf, arrays of one length, or objects with the same keys in one order but for undefined members.
  predicate SameNode(x: Js, y: Js) {
    match x
    case Arr(items) => y.Arr? && |y.items| == |items|
    case Obj(_, members) => y.Obj? && PresentKeys(y.members) == PresentKeys(members)
    case _ => y == x
  }

  predicate IsMember(path: seq<Step>) { path != [] && path[|path| - 1].Key? }

  // JSON has no such value: undefined stands for an absent member only.
  predicate NotJson(path: seq<Step>, x: Js) {
    x.NonFinite? || x.Other? || (x.Obj? && !x.plain) || (x.Undefined? && !IsMember(path))
  }

  // c is v without its undefined members: every path leads to the same node in both.
  ghost predicate Agrees(v: Js, c: Js) {
    && (forall path, x :: Leads(v, path, x) && !x.Undefined? ==> exists y :: Leads(c, path, y) && SameNode(x, y))
    && (forall path, y :: Leads(c, path, y) ==>
          !y.Undefined? && exists x :: Leads(v, path, x) && !x.Undefined? && SameNode(x, y))
  }

  ghost predicate HoldsOtherThanJson(v: Js) {
    exists path, x :: Leads(v, path, x) && NotJson(path, x)
  }

  lemma {:induction false} CopiedItems(items: seq<Js>)
    requires CopyItems(items).Some?
    ensures var c := CopyItems(items).value;
            |c| == |items| && forall i :: 0 <= i < |c| ==> CopyValue(items[i]) == Some(c[i])
  {
    if items != [] {
      CopiedItems(items[1..]);
    }
  }

  // The copies of the present members, in order.
  lemma {:induction false} CopiedMembers(members: seq<Member>)
    requires CopyMembers(members).Some?
    ensures var c := CopyMembers(members).value;
            && PresentKeys(c) == PresentKeys(members)
            && (forall m :: m in members && !m.value.Undefined? ==>
                  CopyValue(m.value).Some? && Member(m.key, CopyValue(m.value).value) in c)
            && forall n :: n in c ==>
                 exists m :: && m in members && !m.value.Undefined? && m.key == n.key
                             && CopyValue(m.value) == Some(n.value)
  {
    if members != [] {
      var first, rest := members[0], members[1..];
      CopiedMembers(rest);
      var c := CopyMembers(members).value;
      assert first in members && forall m :: m in members <==> m == first || m in rest;
      if !first.value.Undefined? {
        CopyIsStable(first.value);
        assert c[1..] == CopyMembers(rest).value;
        assert forall n :: n in c <==> n == c[0] || n in c[1..];
      }
    }
  }

  lemma CopiedNode(v: Js)
    requires CopyValue(v).Some?
    ensures SameNode(v, CopyValue(v).value) && !v.Undefined? && !CopyValue(v).value.Undefined?
  {
    match v
    case Arr(items) => CopiedItems(items);
    case Obj(_, members) => CopiedMembers(members);
    case _ =>
  }

  lemma {:induction false} CopyReaches(v: Js, path: seq<Step>, x: Js) returns (y: Js)
    requires CopyValue(v).Some? && Leads(v, path, x) && !x.Undefined?
    ensures Leads(CopyValue(v).value, path, y) && SameNode(x, y)
    decreases |path|
  {
    hide SameNode;
    var c := CopyValue(v).value;
    if path == [] {
      CopiedNode(v);
      y := c;
    } else if path[0].At? {
      CopiedItems(v.items);
      y := CopyReaches(v.items[path[0].index], path[1..], x);
    } else {
      CopiedMembers(v.members);
      var m :| m in v.members && m.key == path[0].key && Leads(m.value, path[1..], x);
      if m.value.Undefined? {
        UndefinedLeadsNowhere(m.value, path[1..], x);
      }
      y := CopyReaches(m.value, path[1..], x);
      assert Member(m.key, CopyValue(m.value).value) in c.members;
    }
  }

  lemma UndefinedLeadsNowhere(v: Js, path: seq<Step>, x: Js)
    requires Leads(v, path, x) && v.Undefined?
    ensures x.Undefined? && path == []
  {
  }

  lemma {:induction false} CopyComesFrom(v: Js, path: seq<Step>, y: Js) returns (x: Js)
    requires CopyValue(v).Some? && Leads(CopyValue(v).value, path, y)
    ensures Leads(v, path, x) && SameNode(x, y) && !x.Undefined? && !y.Undefined?
    decreases |path|
  {
    hide SameNode;
    var c := CopyValue(v).value;
    if path == [] {
      CopiedNode(v);
      x := v;
    } else if path[0].At? {
      CopiedItems(v.items);
      x := CopyComesFrom(v.items[path[0].index], path[1..], y);
    } else {
      CopiedMembers(v.members);
      var n :| n in c.members && n.key == path[0].key && Leads(n.value, path[1..], y);
      var m :| m in v.members && !m.value.Undefined? && m.key == n.key && CopyValue(m.value) == Some(n.value);
      x := CopyComesFrom(m.value, path[1..], y);
    }
  }

  /**
   * A copy is the value itself but for undefined members: every path of keys and indices leads to the same
   * leaf, to an array of the same length or to an object with the same keys, and to nothing else.
   */
  lemma CopyAgrees(v: Js)
    requires CopyValue(v).Some?
    ensures Agrees(v, CopyValue(v).value)
  {
    hide SameNode, CopyValue, Leads;
    var c := CopyValue(v).value;
    forall path, x | Leads(v, path, x) && !x.Undefined?
      ensures exists y :: Leads(c, path, y) && SameNode(x, y)
    {
      var y := CopyReaches(v, path, x);
    }
    forall path, y | Leads(c, path, y)
      ensures !y.Undefined? && exists x :: Leads(v, path, x) && !x.Undefined? && SameNode(x, y)
    {
      var x := CopyComesFrom(v, path, y);
    }
  }

  lemma {:induction false} CopiedValueIsJson(v: Js, path: seq<Step>, x: Js)
    requires CopyValue(v).Some? && Leads(v, path, x)
    ensures !NotJson(path, x)
    decreases |path|
  {
    if path != [] {
      var rest := path[1..];
      if path[0].At? {
        CopiedItems(v.items);
        CopiedValueIsJson(v.items[path[0].index], rest, x);
      } else {
        CopiedMembers(v.members);
        var m :| m in v.members && m.key == path[0].key && Leads(m.value, rest, x);
        if m.value.Undefined? {
          UndefinedLeadsNowhere(m.value, rest, x);
        } else {
          CopiedValueIsJson(m.value, rest, x);
        }
      }
    }
  }

  lemma {:induction false} RefusedItem(items: seq<Js>) returns (i: nat)
    requires CopyItems(items).None?
    ensures i < |items| && CopyValue(items[i]).None?
  {
    i := 0;
    if CopyValue(items[0]).Some? {
      i := RefusedItem(items[1..]);
      i := i + 1;
    }
  }

  lemma {:induction false} RefusedMember(members: seq<Member>) returns (m: Member)
    requires CopyMembers(members).None?
    ensures m in members && !m.value.Undefined? && CopyValue(m.value).None?
  {
    m := members[0];
    if m.value.Undefined? || CopyValue(m.value).Some? {
      m := RefusedMember(members[1..]);
    }
  }

  lemma {:induction false} RefusedValue(v: Js) returns (path: seq<Step>, x: Js)
    requires CopyValue(v).None?
    ensures Leads(v, path, x) && NotJson(path, x) && (v.Undefined? ==> path == [])
    decreases v
  {
    path, x := [], v;
    if v.Arr? {
      var i := RefusedItem(v.items);
      path, x := RefusedValue(v.items[i]);
      path := [At(i)] + path;
    } else if v.Obj? && v.plain {
      var m := RefusedMember(v.members);
      var rest;
      rest, x := RefusedValue(m.value);
      path := [Key(m.key)] + rest;
      RefusedBelow(Key(m.key), rest, x, m.value);
    }
  }

  lemma RefusedBelow(step: Step, rest: seq<Step>, x: Js, v: Js)
    requires Leads(v, rest, x) && NotJson(rest, x) && !v.Undefined?
    ensures ([step] + rest)[1..] == rest && NotJson([step] + rest, x)
  {
    assert ([step] + rest)[1..] == rest;
  }

  /** A value is refused exactly when some path leads to a value that JSON does not have. */
  lemma CopyIsRefusedIff(v: Js)
    ensures CopyValue(v).None? <==> HoldsOtherThanJson(v)
  {
    hide CopyValue, Leads, NotJson;
    if CopyValue(v).None? {
      var path, x := RefusedValue(v);
    } else if HoldsOtherThanJson(v) {
      var path, x :| Leads(v, path, x) && NotJson(path, x);
      CopiedValueIsJson(v, path, x);
    }
  }

  // ----- The type graph -----

  datatype Field = Field(name: string, fieldType: string)

  datatype TypeDecl = TypeDecl(name: string, fields: seq<Field>)

  type Types = seq<TypeDecl>

  predicate IsDecimalDigit(c: char) { '0' <= c <= '9' }

  // The position of the '[' that opens the array suffix ending just before `end`, or |t| if there is none.
  function SuffixStart(t: string, end: nat): nat
    requires end <= |t|
    decreases end
  {
    if end == 0 then |t|
    else if t[end - 1] == '[' then end - 1
    else if IsDecimalDigit(t[end - 1]) then SuffixStart(t, end - 1)
    else |t|
  }

  // type.replace(/(\[\d*\])+$/, "")
  function ElementType(t: string): string
    decreases |t|
  {
    if t == "" || t[|t| - 1] != ']' then t
    else
      var start := SuffixStart(t, |t| - 1);
      if start < |t| then ElementType(t[..start]) else t
  }

  // \[\d*\]
  predicate IsSuffix(s: string) {
    |s| >= 2 && s[0] == '[' && s[|s| - 1] == ']' && forall i :: 1 <= i < |s| - 1 ==> IsDecimalDigit(s[i])
  }

  lemma {:induction false} SuffixStartIs(t: string, end: nat, start: nat)
    requires end <= |t|
    ensures SuffixStart(t, end) == start && start < |t| <==>
            start < end && t[start] == '[' && forall i :: start < i < end ==> IsDecimalDigit(t[i])
    decreases end
  {
    if 0 < end && t[end - 1] != '[' && IsDecimalDigit(t[end - 1]) {
      SuffixStartIs(t, end - 1, start);
    }
  }

  lemma SuffixIsDropped(t: string, suffix: string)
    requires IsSuffix(suffix)
    ensures ElementType(t + suffix) == ElementType(t)
  {
    var whole := t + suffix;
    SuffixStartIs(whole, |whole| - 1, |t|);
    assert whole[..|t|] == t;
  }

  /** The element type drops one array suffix after another, and is the text itself when there is none. */
  lemma ElementTypeDropsSuffixes(t: string, suffix: string)
    ensures IsSuffix(suffix) ==> ElementType(t + suffix) == ElementType(t)
    ensures (forall i :: 0 <= i <= |t| ==> !IsSuffix(t[i..])) ==> ElementType(t) == t
  {
    if IsSuffix(suffix) {
      SuffixIsDropped(t, suffix);
    }
    if t != "" && t[|t| - 1] == ']' {
      var start := SuffixStart(t, |t| - 1);
      SuffixStartIs(t, |t| - 1, start);
      if start < |t| {
        assert IsSuffix(t[start..]);
      }
    }
  }

  ghost predicate UniqueNames(types: Types) {
    forall i, j :: 0 <= i < j < |types| ==> types[i].name != types[j].name
  }

  function Names(types: Types): set<string> { set d | d in types :: d.name }

  // d has a field whose element type is `name`.
  predicate Mentions(d: TypeDecl, name: string) {
    exists f :: f in d.fields && ElementType(f.fieldType) == name
  }

  predicate Referenced(types: Types, name: string) {
    exists d :: d in types && Mentions(d, name)
  }

  ghost predicate Edge(types: Types, from: string, to: string) {
    to in Names(types) && exists d :: d in types && d.name == from && Mentions(d, to)
  }

  ghost predicate IsPath(types: Types, path: seq<string>) {
    && path != [] && path[0] in Names(types)
    && forall i, j :: 0 <= i < |path| - 1 && j == i + 1 ==> Edge(types, path[i], path[j])
  }

  // `to` is declared and can be reached from `from` through declared types.
  ghost predicate Reaches(types: Types, from: string, to: string) {
    exists path :: IsPath(types, path) && path[0] == from && path[|path| - 1] == to
  }

  ghost function ReachSet(types: Types, root: string): set<string> {
    set name | name in Names(types) && Reaches(types, root, name)
  }

  function Keep(types: Types, names: set<string>): Types {
    if types == [] then []
    else (if types[0].name in names then [types[0]] else []) + Keep(types[1..], names)
  }

  // The specification of typeClosure: the declared types that the root reaches, in their order.
  ghost function Closure(types: Types, root: string): Types { Keep(types, ReachSet(types, root)) }

  lemma ReachesItself(types: Types, name: string)
    requires name in Names(types)
    ensures Reaches(types, name, name)
  {
    assert IsPath(types, [name]);
  }

  lemma ReachesFurther(types: Types, from: string, via: string, to: string)
    requires Reaches(types, from, via) && Edge(types, via, to)
    ensures Reaches(types, from, to)
  {
    var path :| IsPath(types, path) && path[0] == from && path[|path| - 1] == via;
    assert IsPath(types, path + [to]);
  }

  lemma ReachesThrough(types: Types, from: string, via: string, to: string)
    requires Reaches(types, from, via) && Reaches(types, via, to)
    ensures Reaches(types, from, to)
  {
    var a :| IsPath(types, a) && a[0] == from && a[|a| - 1] == via;
    var b :| IsPath(types, b) && b[0] == via && b[|b| - 1] == to;
    var path := a + b[1..];
    forall i, j | 0 <= i < |path| - 1 && j == i + 1
      ensures Edge(types, path[i], path[j])
    {
      if i >= |a| - 1 {
        assert path[i] == b[i - |a| + 1] && path[j] == b[j - |a| + 1];
      }
    }
    assert IsPath(types, path);
  }

  // A set that holds the root and the declared references of its members holds everything reachable.
  lemma {:induction false} ClosedSetHoldsThePath(types: Types, path: seq<string>, seen: set<string>, n: nat)
    requires IsPath(types, path) && path[0] in seen && n < |path|
    requires forall a, b :: a in seen && Edge(types, a, b) ==> b in seen
    ensures path[n] in seen
  {
    if 0 < n {
      ClosedSetHoldsThePath(types, path, seen, n - 1);
      assert Edge(types, path[n - 1], path[n]);
    }
  }

  ghost predicate NewAreReached(types: Types, name: string, seen: set<string>, after: set<string>) {
    forall n :: n in after && n !in seen ==> Reaches(types, name, n)
  }

  // The new names other than `skip` have their declared references in the set.
  ghost predicate NewAreClosed(types: Types, skip: set<string>, seen: set<string>, after: set<string>) {
    forall n, m :: n in after && n !in seen && n !in skip && Edge(types, n, m) ==> m in after
  }

  // One call of the inner `walk`: it visits `name` and what it reaches, except what is already seen.
  method Walk(types: Types, name: string, seen: set<string>) returns (after: set<string>)
    requires UniqueNames(types)
    ensures seen <= after <= seen + Names(types)
    ensures name in Names(types) ==> name in after
    ensures NewAreReached(types, name, seen, after)
    ensures NewAreClosed(types, {}, seen, after)
    decreases |Names(types) - seen|
  {
    hide NewAreReached, NewAreClosed, ElementType, UniqueNames;
    if name !in Names(types) || name in seen {
      NothingNew(types, name, seen);
      return seen;
    }
    after := seen + {name};
    var d := Declaration(types, name);
    var i := 0;
    OnlyItselfIsNew(types, name, seen);
    while i < |d.fields|
      invariant 0 <= i <= |d.fields|
      invariant seen + {name} <= after <= seen + Names(types)
      invariant NewAreReached(types, name, seen, after)
      invariant NewAreClosed(types, {name}, seen, after)
      invariant forall k :: 0 <= k < i && ElementType(d.fields[k].fieldType) in Names(types) ==>
                  ElementType(d.fields[k].fieldType) in after
    {
      hide Names;
      var child := ElementType(d.fields[i].fieldType);
      var before := after;
      SmallerSet(Names(types) - before, Names(types) - seen, name);
      after := Walk(types, child, before);
      ChildIsReached(types, d, i, seen, before, after);
      ChildIsClosed(types, name, seen, before, after);
      i := i + 1;
    }
    ClosedAtLast(types, d, seen, after);
  }

  lemma NothingNew(types: Types, name: string, seen: set<string>)
    ensures NewAreReached(types, name, seen, seen) && NewAreClosed(types, {}, seen, seen)
  {
  }

  lemma OnlyItselfIsNew(types: Types, name: string, seen: set<string>)
    requires name in Names(types)
    ensures NewAreReached(types, name, seen, seen + {name}) && NewAreClosed(types, {name}, seen, seen + {name})
  {
    ReachesItself(types, name);
  }

  lemma ChildIsClosed(types: Types, name: string, seen: set<string>, before: set<string>, after: set<string>)
    requires seen <= before <= after
    requires NewAreClosed(types, {name}, seen, before) && NewAreClosed(types, {}, before, after)
    ensures NewAreClosed(types, {name}, seen, after)
  {
    hide Edge;
  }

  lemma ClosedAtLast(types: Types, d: TypeDecl, seen: set<string>, after: set<string>)
    requires UniqueNames(types) && d in types && NewAreClosed(types, {d.name}, seen, after)
    requires forall k :: 0 <= k < |d.fields| && ElementType(d.fields[k].fieldType) in Names(types) ==>
               ElementType(d.fields[k].fieldType) in after
    ensures NewAreClosed(types, {}, seen, after)
  {
    forall n, m | n in after && n !in seen && Edge(types, n, m)
      ensures m in after
    {
      if n == d.name {
        OnlyDeclaration(types, d, m);
      }
    }
  }

  lemma SmallerSet(a: set<string>, b: set<string>, x: string)
    requires a <= b - {x} && x in b
    ensures |a| < |b|
  {
    SubsetSize(a, b - {x});
  }

  lemma {:induction false} SubsetSize(a: set<string>, b: set<string>)
    requires a <= b
    ensures |a| <= |b|
    decreases a
  {
    if a != {} {
      var x :| x in a;
      SubsetSize(a - {x}, b - {x});
    }
  }

  lemma ChildIsReached(
    types: Types, d: TypeDecl, i: nat, seen: set<string>, before: set<string>, after: set<string>)
    requires d in types && i < |d.fields| && NewAreReached(types, d.name, seen, before)
    requires NewAreReached(types, ElementType(d.fields[i].fieldType), before, after)
    ensures NewAreReached(types, d.name, seen, after)
  {
    var child := ElementType(d.fields[i].fieldType);
    forall n | n in after && n !in before
      ensures Reaches(types, d.name, n)
    {
      assert d.fields[i] in d.fields && Mentions(d, child);
      var path :| IsPath(types, path) && path[0] == child && path[|path| - 1] == n;
      ReachesItself(types, d.name);
      ReachesFurther(types, d.name, d.name, child);
      ReachesThrough(types, d.name, child, n);
    }
  }

  lemma OnlyDeclaration(types: Types, d: TypeDecl, m: string)
    requires UniqueNames(types) && d in types && Edge(types, d.name, m)
    ensures m in Names(types) && exists k :: 0 <= k < |d.fields| && ElementType(d.fields[k].fieldType) == m
  {
    var e :| e in types && e.name == d.name && Mentions(e, m);
    assert e == d;
    var f :| f in d.fields && ElementType(f.fieldType) == m;
  }

  function Declaration(types: Types, name: string): (d: TypeDecl)
    requires name in Names(types)
    ensures d in types && d.name == name
  {
    if types[0].name == name then types[0] else Declaration(types[1..], name)
  }

  method TypeClosure(types: Types, root: string) returns (closure: Types)
    requires UniqueNames(types)
    ensures closure == Closure(types, root)
  {
    var seen := Walk(types, root, {});
    forall n
      ensures n in seen <==> n in ReachSet(types, root)
    {
      if n in ReachSet(types, root) {
        var path :| IsPath(types, path) && path[0] == root && path[|path| - 1] == n;
        ClosedSetHoldsThePath(types, path, seen, |path| - 1);
      }
    }
    assert seen == ReachSet(types, root);
    closure := Keep(types, seen);
  }

  method IsReferencedType(types: Types, name: string) returns (referenced: bool)
    ensures referenced <==> Referenced(types, name)
  {
    var i := 0;
    while i < |types|
      invariant 0 <= i <= |types|
      invariant forall k :: 0 <= k < i ==> !Mentions(types[k], name)
    {
      var fields := types[i].fields;
      var j := 0;
      while j < |fields|
        invariant 0 <= j <= |fields|
        invariant forall k :: 0 <= k < j ==> ElementType(fields[k].fieldType) != name
      {
        if ElementType(fields[j].fieldType) == name {
          assert fields[j] in fields && Mentions(types[i], name) && types[i] in types;
          return true;
        }
        j := j + 1;
      }
      i := i + 1;
    }
    referenced := false;
  }

  // ----- What the closure keeps -----

  lemma {:induction false} KeepEffect(types: Types, names: set<string>)
    ensures forall d :: d in Keep(types, names) <==> d in types && d.name in names
    ensures UniqueNames(types) ==> UniqueNames(Keep(types, names))
  {
    if types != [] {
      var rest := types[1..];
      KeepEffect(rest, names);
      assert forall d :: d in types <==> d == types[0] || d in rest;
      if UniqueNames(types) {
        assert UniqueNames(rest);
        forall d | d in Keep(rest, names)
          ensures d.name != types[0].name
        {
          assert d in rest;
        }
      }
    }
  }

  lemma {:induction false} KeepAll(types: Types, names: set<string>)
    requires forall d :: d in types ==> d.name in names
    ensures Keep(types, names) == types
  {
    if types != [] {
      KeepAll(types[1..], names);
    }
  }

  /** The closure is exactly the declared types that the root reaches. */
  lemma ClosureIsReachable(types: Types, root: string, d: TypeDecl)
    ensures d in Closure(types, root) <==> d in types && Reaches(types, root, d.name)
  {
    KeepEffect(types, ReachSet(types, root));
  }

  /** It is closed: a declared type that a kept struct mentions is kept as well. */
  lemma ClosureIsClosed(types: Types, root: string, d: TypeDecl, mentioned: TypeDecl)
    requires d in Closure(types, root) && mentioned in types && Mentions(d, mentioned.name)
    ensures mentioned in Closure(types, root)
  {
    ClosureIsReachable(types, root, d);
    ClosureIsReachable(types, root, mentioned);
    assert Edge(types, d.name, mentioned.name);
    ReachesFurther(types, root, d.name, mentioned.name);
  }

  // The last edge of a path that leaves the root.
  lemma ReachedIsMentioned(types: Types, root: string, name: string)
    requires Reaches(types, root, name) && name != root
    ensures exists d :: d in types && Reaches(types, root, d.name) && Mentions(d, name)
  {
    var path :| IsPath(types, path) && path[0] == root && path[|path| - 1] == name;
    var n := |path| - 2;
    assert Edge(types, path[n], path[n + 1]);
    var d :| d in types && d.name == path[n] && Mentions(d, name);
    assert IsPath(types, path[..n + 1]);
  }

  /** Every kept struct other than the root is mentioned by a kept struct. */
  lemma ClosureHasOneRoot(types: Types, root: string, d: TypeDecl)
    requires d in Closure(types, root) && d.name != root
    ensures Referenced(Closure(types, root), d.name)
  {
    ClosureIsReachable(types, root, d);
    ReachedIsMentioned(types, root, d.name);
    var e :| e in types && Reaches(types, root, e.name) && Mentions(e, d.name);
    ClosureIsReachable(types, root, e);
  }

  lemma PathReaches(types: Types, root: string, path: seq<string>, i: nat)
    requires IsPath(types, path) && path[0] == root && i < |path|
    ensures path[i] in Names(types) && Reaches(types, root, path[i])
  {
    assert IsPath(types, path[..i + 1]);
    if 0 < i {
      assert Edge(types, path[i - 1], path[i]);
    }
  }

  // A path from the root stays inside the closure.
  lemma PathStaysInClosure(types: Types, root: string, path: seq<string>)
    requires IsPath(types, path) && path[0] == root
    ensures IsPath(Closure(types, root), path)
  {
    var closure := Closure(types, root);
    KeepEffect(types, ReachSet(types, root));
    forall i | 0 <= i < |path|
      ensures path[i] in Names(closure) && Reaches(types, root, path[i])
    {
      PathReaches(types, root, path, i);
      var d := Declaration(types, path[i]);
      assert d in closure;
    }
    forall i, j | 0 <= i < |path| - 1 && j == i + 1
      ensures Edge(closure, path[i], path[j])
    {
      assert Edge(types, path[i], path[j]);
      var d :| d in types && d.name == path[i] && Mentions(d, path[j]);
      assert d in closure;
    }
  }

  /** Taking the closure twice changes nothing. */
  lemma ClosureTwice(types: Types, root: string)
    ensures Closure(Closure(types, root), root) == Closure(types, root)
  {
    var closure := Closure(types, root);
    KeepEffect(types, ReachSet(types, root));
    forall d | d in closure
      ensures d.name in ReachSet(closure, root)
    {
      var path :| IsPath(types, path) && path[0] == root && path[|path| - 1] == d.name;
      PathStaysInClosure(types, root, path);
    }
    KeepAll(closure, ReachSet(closure, root));
  }

  // ----- Normalization -----

  datatype Raw = Raw(domain: Js, types: Js, primaryType: Js, message: Js, value: Js)

  datatype Payload = Payload(domain: Js, types: Types, primaryType: Option<string>, message: Js)

  datatype PayloadError =
    | BadDomain | BadTypes | BadMessage | FieldsNotAnArray | FieldWithoutNameOrType | NoStruct
    | PrimaryNotAString | PrimaryNotDeclared | PrimaryReferenced

  function MemberOf(members: seq<Member>, key: string): Js {
    if members == [] then Undefined else if members[0].key == key then members[0].value else MemberOf(members[1..], key)
  }

  function ReadField(v: Js): Option<Field> {
    if v.Obj? && MemberOf(v.members, "name").Str? && MemberOf(v.members, "type").Str? then
      Some(Field(MemberOf(v.members, "name").text, MemberOf(v.members, "type").text))
    else None
  }

  function ReadFields(items: seq<Js>): Option<seq<Field>> {
    if items == [] then Some([])
    else
      var first, rest := ReadField(items[0]), ReadFields(items[1..]);
      if first.None? || rest.None? then None else Some([first.value] + rest.value)
  }

  // Assigning the member "__proto__" sets the record's prototype and declares no type.
  predicate Declares(name: string) { name != "__proto__" }

  function ReadStructs(members: seq<Member>): Result<Types, PayloadError> {
    if members == [] then Ok([])
    else if members[0].key == "EIP712Domain" then ReadStructs(members[1..])
    else if !members[0].value.Arr? then Err(FieldsNotAnArray)
    else
      var fields := ReadFields(members[0].value.items);
      if fields.None? then Err(FieldWithoutNameOrType)
      else
        match ReadStructs(members[1..])
        case Err(error) => Err(error)
        case Ok(rest) =>
          Ok((if Declares(members[0].key) then [TypeDecl(members[0].key, fields.value)] else []) + rest)
  }

  function MessageOf(raw: Raw): Js {
    if raw.message.Undefined? || raw.message.Null? then raw.value else raw.message
  }

  ghost function Normalized(raw: Raw): Result<Payload, PayloadError> {
    var domain, message := CopyObject(raw.domain), CopyObject(MessageOf(raw));
    if domain.None? then Err(BadDomain)
    else if !raw.types.Obj? then Err(BadTypes)
    else if message.None? then Err(BadMessage)
    else
      match ReadStructs(raw.types.members)
      case Err(error) => Err(error)
      case Ok(structs) =>
        if structs == [] then Err(NoStruct)
        else if raw.primaryType.Undefined? then Ok(Payload(domain.value, structs, None, message.value))
        else if !raw.primaryType.Str? then Err(PrimaryNotAString)
        else if raw.primaryType.text !in Names(structs) then Err(PrimaryNotDeclared)
        else if Referenced(structs, raw.primaryType.text) then Err(PrimaryReferenced)
        else
          var primary := raw.primaryType.text;
          Ok(Payload(domain.value, Closure(structs, primary), Some(primary), message.value))
  }

  ghost predicate UniqueKeys(members: seq<Member>) {
    forall i, j :: 0 <= i < j < |members| ==> members[i].key != members[j].key
  }

  method CollectStructs(members: seq<Member>) returns (structs: Result<Types, PayloadError>)
    ensures structs == ReadStructs(members)
  {
    var declared: Types := [];
    var i := 0;
    assert members[0..] == members;
    PrependNothing(ReadStructs(members));
    while i < |members|
      invariant 0 <= i <= |members|
      invariant ReadStructs(members) == Prepend(declared, ReadStructs(members[i..]))
    {
      var name, fields := members[i].key, members[i].value;
      assert members[i..][1..] == members[i + 1..];
      if name != "EIP712Domain" {
        if !fields.Arr? { return Err(FieldsNotAnArray); }
        var read := ReadFields(fields.items);
        if read.None? { return Err(FieldWithoutNameOrType); }
        if Declares(name) {
          PrependTwice(declared, [TypeDecl(name, read.value)], ReadStructs(members[i + 1..]));
          declared := declared + [TypeDecl(name, read.value)];
        } else {
          PrependNothing(ReadStructs(members[i + 1..]));
        }
      }
      i := i + 1;
    }
    assert members[i..] == [] && declared + [] == declared;
    structs := Ok(declared);
  }

  function Prepend(declared: Types, rest: Result<Types, PayloadError>): Result<Types, PayloadError> {
    match rest
    case Err(error) => Err(error)
    case Ok(more) => Ok(declared + more)
  }

  lemma PrependNothing(rest: Result<Types, PayloadError>)
    ensures Prepend([], rest) == rest
  {
    if rest.Ok? {
      assert [] + rest.value == rest.value;
    }
  }

  lemma PrependTwice(a: Types, b: Types, rest: Result<Types, PayloadError>)
    ensures Prepend(a, Prepend(b, rest)) == Prepend(a + b, rest)
  {
    if rest.Ok? {
      assert a + (b + rest.value) == a + b + rest.value;
    }
  }

  lemma {:induction false} StructNamesAreUnique(members: seq<Member>)
    requires UniqueKeys(members) && ReadStructs(members).Ok?
    ensures UniqueNames(ReadStructs(members).value)
    ensures forall d :: d in ReadStructs(members).value ==> exists m :: m in members && m.key == d.name
  {
    if members != [] {
      var rest := members[1..];
      assert UniqueKeys(rest);
      StructNamesAreUnique(rest);
      forall d | d in ReadStructs(members).value
        ensures exists m :: m in members && m.key == d.name
      {
        if d in ReadStructs(rest).value {
          var m :| m in rest && m.key == d.name;
          assert m in members;
        } else {
          assert members[0] in members;
        }
      }
      forall d | d in ReadStructs(rest).value
        ensures d.name != members[0].key
      {
        var m :| m in rest && m.key == d.name;
      }
    }
  }

  method NormalizeTypedData(raw: Raw) returns (payload: Result<Payload, PayloadError>)
    requires raw.types.Obj? ==> UniqueKeys(raw.types.members)
    ensures payload == Normalized(raw)
  {
    var domain := CopyObject(raw.domain);
    if domain.None? { return Err(BadDomain); }
    if !raw.types.Obj? { return Err(BadTypes); }
    var message := CopyObject(MessageOf(raw));
    if message.None? { return Err(BadMessage); }
    var structs := CollectStructs(raw.types.members);
    if structs.Err? { return Err(structs.error); }
    if structs.value == [] { return Err(NoStruct); }
    if raw.primaryType.Undefined? {
      return Ok(Payload(domain.value, structs.value, None, message.value));
    }
    if !raw.primaryType.Str? { return Err(PrimaryNotAString); }
    var primary := raw.primaryType.text;
    if primary !in Names(structs.value) { return Err(PrimaryNotDeclared); }
    var referenced := IsReferencedType(structs.value, primary);
    if referenced { return Err(PrimaryReferenced); }
    StructNamesAreUnique(raw.types.members);
    var reachable := TypeClosure(structs.value, primary);
    payload := Ok(Payload(domain.value, reachable, Some(primary), message.value));
  }

  // ----- What is accepted -----

  ghost predicate IsJsonObject(v: Js) { v.Obj? && !HoldsOtherThanJson(v) }

  ghost predicate IsText(v: Js, key: string, text: string) { Leads(v, [Key(key)], Str(text)) }

  // The value gives the field its name and its type.
  ghost predicate GivesField(v: Js, f: Field) { IsText(v, "name", f.name) && IsText(v, "type", f.fieldType) }

  ghost predicate GivesFields(v: Js, fields: seq<Field>) {
    v.Arr? && |v.items| == |fields| && forall i :: 0 <= i < |fields| ==> GivesField(v.items[i], fields[i])
  }

  ghost predicate IsField(v: Js) { exists f :: GivesField(v, f) }

  ghost predicate IsFieldList(v: Js) { v.Arr? && forall i :: 0 <= i < |v.items| ==> IsField(v.items[i]) }

  predicate IsStruct(m: Member) { m.key != "EIP712Domain" && m.key != "__proto__" }

  ghost predicate IsDeclared(members: seq<Member>, name: string) {
    exists m :: m in members && IsStruct(m) && m.key == name
  }

  // Some struct has a field whose type is `name` or an array of it.
  ghost predicate IsMentioned(members: seq<Member>, name: string) {
    exists m, i: nat, t: string ::
      && m in members && IsStruct(m) && Leads(m.value, [At(i), Key("type")], Str(t)) && ElementType(t) == name
  }

  ghost predicate DistinctKeys(v: Js) { v.Obj? ==> UniqueKeys(v.members) }

  // The keys of the objects that give fields are distinct.
  ghost predicate HasDistinctItems(members: seq<Member>) {
    forall m, i :: m in members && m.value.Arr? && 0 <= i < |m.value.items| ==> DistinctKeys(m.value.items[i])
  }

  lemma {:induction false} MemberLeads(members: seq<Member>, key: string, text: string)
    requires UniqueKeys(members)
    ensures MemberOf(members, key) == Str(text) <==> IsText(Obj(true, members), key, text)
    ensures IsText(Obj(true, members), key, text) <==> IsText(Obj(false, members), key, text)
  {
    OneStep(Obj(true, members), Key(key), Str(text));
    OneStep(Obj(false, members), Key(key), Str(text));
    if members != [] {
      var first, rest := members[0], members[1..];
      assert UniqueKeys(rest);
      MemberLeads(rest, key, text);
      OneStep(Obj(true, rest), Key(key), Str(text));
      assert first in members && forall m :: m in members <==> m == first || m in rest;
      if first.key == key {
        forall m | m in rest
          ensures m.key != key
        {
          var i :| 0 <= i < |rest| && rest[i] == m;
          assert members[i + 1] == m;
        }
      }
    }
  }

  lemma OneStep(v: Js, step: Step, x: Js)
    ensures Leads(v, [step], x) <==>
            if step.Key? then v.Obj? && Member(step.key, x) in v.members
            else v.Arr? && step.index < |v.items| && v.items[step.index] == x
  {
    assert [step][1..] == [];
    if v.Obj? && step.Key? && Member(step.key, x) in v.members {
      assert Leads(Member(step.key, x).value, [], x);
    }
  }

  lemma FieldIsGiven(v: Js, f: Field)
    requires DistinctKeys(v)
    ensures ReadField(v) == Some(f) <==> GivesField(v, f)
  {
    if v.Obj? {
      MemberLeads(v.members, "name", f.name);
      MemberLeads(v.members, "type", f.fieldType);
    } else {
      OneStep(v, Key("name"), Str(f.name));
    }
  }

  lemma ReadFieldIff(v: Js)
    requires DistinctKeys(v)
    ensures ReadField(v).Some? <==> IsField(v)
    ensures ReadField(v).Some? ==> GivesField(v, ReadField(v).value)
  {
    hide ReadField, GivesField, DistinctKeys;
    if ReadField(v).Some? {
      FieldIsGiven(v, ReadField(v).value);
    }
    if IsField(v) {
      var f :| GivesField(v, f);
      FieldIsGiven(v, f);
    }
  }

  lemma FieldListSplits(items: seq<Js>)
    requires items != []
    ensures IsFieldList(Arr(items)) <==> IsField(items[0]) && IsFieldList(Arr(items[1..]))
  {
    hide IsField;
    assert forall i :: 0 <= i < |items| - 1 ==> items[1..][i] == items[i + 1];
    assert forall i :: 1 <= i < |items| ==> items[i] == items[1..][i - 1];
  }

  lemma {:induction false} FieldsAreGiven(items: seq<Js>)
    requires forall i :: 0 <= i < |items| ==> DistinctKeys(items[i])
    ensures ReadFields(items).Some? <==> IsFieldList(Arr(items))
    ensures ReadFields(items).Some? ==> GivesFields(Arr(items), ReadFields(items).value)
  {
    hide ReadField, GivesField, DistinctKeys, IsFieldList, IsField;
    if items != [] {
      FieldsAreGiven(items[1..]);
      FieldListSplits(items);
      ReadFieldIff(items[0]);
    } else {
      EmptyFieldList();
    }
  }

  lemma EmptyFieldList()
    ensures IsFieldList(Arr([]))
  {
  }

  ghost predicate Lists(members: seq<Member>) {
    forall m :: m in members && m.key != "EIP712Domain" ==> IsFieldList(m.value)
  }

  function Structs(members: seq<Member>): seq<Member> {
    if members == [] then [] else (if IsStruct(members[0]) then [members[0]] else []) + Structs(members[1..])
  }

  // One declaration for each struct given, in the same order, with its name and its fields.
  ghost predicate DeclaresAsGiven(given: seq<Member>, structs: Types) {
    && |structs| == |given|
    && forall i :: 0 <= i < |given| ==>
         structs[i].name == given[i].key && GivesFields(given[i].value, structs[i].fields)
  }

  lemma {:induction false} StructsAreMembers(members: seq<Member>)
    ensures forall m :: m in Structs(members) <==> m in members && IsStruct(m)
  {
    if members != [] {
      StructsAreMembers(members[1..]);
      assert forall m :: m in members <==> m == members[0] || m in members[1..];
    }
  }

  lemma {:induction false} StructsAreGiven(members: seq<Member>)
    requires HasDistinctItems(members)
    ensures ReadStructs(members).Ok? <==> Lists(members)
    ensures ReadStructs(members).Ok? ==> DeclaresAsGiven(Structs(members), ReadStructs(members).value)
  {
    hide DistinctKeys, GivesFields, IsFieldList, ReadFields, Lists, DeclaresAsGiven, Structs;
    if members == [] {
      NothingIsGiven();
    } else {
      var first, rest := members[0], members[1..];
      assert members == [first] + rest;
      assert first in members && forall m :: m in rest ==> m in members;
      StructsAreGiven(rest);
      MoreLists(first, rest);
      NotAList(first.value);
      if first.value.Arr? {
        FieldsAreGiven(first.value.items);
        if ReadFields(first.value.items).Some? && ReadStructs(rest).Ok? {
          MoreGiven(first, Structs(rest), ReadFields(first.value.items).value, ReadStructs(rest).value);
          assert [] + ReadStructs(rest).value == ReadStructs(rest).value;
        }
      }
      GivenStructs(first, rest);
    }
  }

  lemma NothingIsGiven()
    ensures Lists([]) && DeclaresAsGiven(Structs([]), [])
  {
  }

  lemma MoreLists(first: Member, rest: seq<Member>)
    ensures Lists([first] + rest) <==> (first.key == "EIP712Domain" || IsFieldList(first.value)) && Lists(rest)
  {
    hide IsFieldList;
    assert forall m :: m in [first] + rest <==> m == first || m in rest;
  }

  lemma GivenStructs(first: Member, rest: seq<Member>)
    ensures Structs([first] + rest) == (if IsStruct(first) then [first] + Structs(rest) else Structs(rest))
  {
    assert ([first] + rest)[1..] == rest;
  }

  lemma MoreGiven(first: Member, given: seq<Member>, fields: seq<Field>, structs: Types)
    requires GivesFields(first.value, fields) && DeclaresAsGiven(given, structs)
    ensures DeclaresAsGiven([first] + given, [TypeDecl(first.key, fields)] + structs)
  {
    hide GivesFields;
    var all, declared := [first] + given, [TypeDecl(first.key, fields)] + structs;
    forall i | 0 <= i < |all|
      ensures declared[i].name == all[i].key && GivesFields(all[i].value, declared[i].fields)
    {
      if i != 0 {
        assert all[i] == given[i - 1] && declared[i] == structs[i - 1];
      }
    }
  }

  lemma NotAList(v: Js)
    ensures IsFieldList(v) ==> v.Arr?
  {
  }

  lemma ReferencedIsMentioned(members: seq<Member>, structs: Types, name: string)
    requires DeclaresAsGiven(Structs(members), structs) && Referenced(structs, name)
    ensures IsMentioned(members, name)
  {
    hide ElementType, Leads, IsStruct;
    StructsAreMembers(members);
    var d :| d in structs && Mentions(d, name);
    var f :| f in d.fields && ElementType(f.fieldType) == name;
    var k :| 0 <= k < |structs| && structs[k] == d;
    var i :| 0 <= i < |d.fields| && d.fields[i] == f;
    var m := Structs(members)[k];
    assert m in Structs(members) && GivesField(m.value.items[i], f);
    TwoSteps(m.value, i, f.fieldType);
  }

  lemma MentionedIsReferenced(members: seq<Member>, structs: Types, name: string)
    requires DeclaresAsGiven(Structs(members), structs) && IsMentioned(members, name) && HasDistinctItems(members)
    ensures Referenced(structs, name)
  {
    hide ElementType, Leads, IsStruct, DistinctKeys, Structs;
    StructsAreMembers(members);
    var m, i: nat, t: string :|
      m in members && IsStruct(m) && Leads(m.value, [At(i), Key("type")], Str(t)) && ElementType(t) == name;
    var k :| 0 <= k < |structs| && Structs(members)[k] == m;
    TwoSteps(m.value, i, t);
    var f := structs[k].fields[i];
    assert GivesField(m.value.items[i], f);
    OneText(m.value.items[i], "type", t, f.fieldType);
    assert f in structs[k].fields && structs[k] in structs && Mentions(structs[k], name);
  }

  lemma OneText(v: Js, key: string, a: string, b: string)
    requires DistinctKeys(v) && IsText(v, key, a) && IsText(v, key, b)
    ensures a == b
  {
    OneStep(v, Key(key), Str(a));
    OneStep(v, Key(key), Str(b));
    var i :| 0 <= i < |v.members| && v.members[i] == Member(key, Str(a));
    var j :| 0 <= j < |v.members| && v.members[j] == Member(key, Str(b));
  }

  lemma NamedIsDeclared(members: seq<Member>, structs: Types, name: string)
    requires DeclaresAsGiven(Structs(members), structs)
    ensures name in Names(structs) <==> IsDeclared(members, name)
  {
    hide GivesFields, IsStruct;
    StructsAreMembers(members);
    if name in Names(structs) {
      var d :| d in structs && d.name == name;
      var k :| 0 <= k < |structs| && structs[k] == d;
      assert Structs(members)[k] in Structs(members);
    }
    if IsDeclared(members, name) {
      var m :| m in members && IsStruct(m) && m.key == name;
      var k :| 0 <= k < |structs| && Structs(members)[k] == m;
      assert structs[k] in structs;
    }
  }

  lemma TwoSteps(v: Js, i: nat, t: string)
    ensures Leads(v, [At(i), Key("type")], Str(t)) <==> v.Arr? && i < |v.items| && IsText(v.items[i], "type", t)
  {
    assert [At(i), Key("type")][1..] == [Key("type")];
  }

  // What is given as the message: `value` stands in for a missing or null `message`.
  function GivenMessage(raw: Raw): Js { if raw.message in {Undefined, Null} then raw.value else raw.message }

  // The primary type is left out, or names a declared struct that no field mentions.
  ghost predicate IsRootOrAbsent(members: seq<Member>, primaryType: Js) {
    || primaryType.Undefined?
    || (primaryType.Str? && IsDeclared(members, primaryType.text) && !IsMentioned(members, primaryType.text))
  }

  lemma ObjectIsCopiedIff(v: Js)
    ensures CopyObject(v).Some? <==> IsJsonObject(v)
    ensures CopyObject(v).Some? ==> Agrees(v, CopyObject(v).value)
  {
    hide CopyValue, Agrees, HoldsOtherThanJson;
    CopyIsRefusedIff(v);
    if CopyValue(v).Some? {
      CopyAgrees(v);
    }
  }

  /**
   * Typed data is accepted exactly when domain and message are objects of JSON values, every type but
   * EIP712Domain is a list of fields with a name and a type, some struct is declared, and the primary type
   * is left out or a declared struct that no field mentions.
   */
  lemma AcceptedIff(raw: Raw)
    requires raw.types.Obj? ==> UniqueKeys(raw.types.members) && HasDistinctItems(raw.types.members)
    ensures Normalized(raw).Ok? <==>
            && IsJsonObject(raw.domain) && IsJsonObject(GivenMessage(raw)) && raw.types.Obj?
            && Lists(raw.types.members) && (exists m :: m in raw.types.members && IsStruct(m))
            && IsRootOrAbsent(raw.types.members, raw.primaryType)
  {
    hide CopyObject, IsJsonObject, ReadStructs, Structs, Names, IsDeclared, IsMentioned, Referenced, Lists, Closure,
         IsStruct, HasDistinctItems, UniqueKeys, GivesFields;
    ObjectIsCopiedIff(raw.domain);
    ObjectIsCopiedIff(GivenMessage(raw));
    if raw.types.Obj? {
      var members := raw.types.members;
      StructsAreGiven(members);
      StructsAreMembers(members);
      if ReadStructs(members).Ok? {
        var structs := ReadStructs(members).value;
        if structs != [] {
          assert Structs(members)[0] in Structs(members);
        }
        if raw.primaryType.Str? {
          NamedIsDeclared(members, structs, raw.primaryType.text);
          RootIff(members, structs, raw.primaryType.text);
        }
      }
    }
  }

  lemma RootIff(members: seq<Member>, structs: Types, name: string)
    requires DeclaresAsGiven(Structs(members), structs) && HasDistinctItems(members)
    ensures Referenced(structs, name) <==> IsMentioned(members, name)
  {
    hide DeclaresAsGiven, HasDistinctItems, Referenced, IsMentioned;
    if Referenced(structs, name) {
      ReferencedIsMentioned(members, structs, name);
    }
    if IsMentioned(members, name) {
      MentionedIsReferenced(members, structs, name);
    }
  }

  /**
   * What is signed is what was given: domain and message agree with the input on every path, the primary
   * type is the one given, and each type has the fields given under its name.
   */
  lemma NormalizedDataIsTheGiven(raw: Raw)
    requires raw.types.Obj? ==> HasDistinctItems(raw.types.members)
    requires Normalized(raw).Ok?
    ensures var p := Normalized(raw).value;
            && Agrees(raw.domain, p.domain) && Agrees(GivenMessage(raw), p.message)
            && p.primaryType == (if raw.primaryType.Str? then Some(raw.primaryType.text) else None)
            && (p.primaryType.None? ==> DeclaresAsGiven(Structs(raw.types.members), p.types))
            && forall d :: d in p.types ==>
                 exists m :: m in raw.types.members && IsStruct(m) && m.key == d.name && GivesFields(m.value, d.fields)
  {
    hide CopyObject, Agrees, ReadStructs, Names, Referenced, IsStruct, HasDistinctItems, GivesFields, Reaches;
    hide IsJsonObject;
    ObjectIsCopiedIff(raw.domain);
    ObjectIsCopiedIff(GivenMessage(raw));
    var p, members := Normalized(raw).value, raw.types.members;
    var structs := ReadStructs(members).value;
    StructsAreGiven(members);
    StructsAreMembers(members);
    if p.primaryType.Some? {
      KeepEffect(structs, ReachSet(structs, p.primaryType.value));
    }
    forall d | d in p.types
      ensures exists m :: m in members && IsStruct(m) && m.key == d.name && GivesFields(m.value, d.fields)
    {
      assert d in structs;
      var k :| 0 <= k < |structs| && structs[k] == d;
      assert Structs(members)[k] in Structs(members);
    }
  }

  // ----- What normalization promises -----

  function RootTypes(types: Types, all: Types): seq<string> {
    if types == [] then []
    else (if Referenced(all, types[0].name) then [] else [types[0].name]) + RootTypes(types[1..], all)
  }

  // resolvePrimaryType: the declared root, or the unique one.
  function ResolvePrimaryType(types: Types, declared: Option<string>): Option<string> {
    if declared.Some? then declared
    else
      var roots := RootTypes(types, types);
      if |roots| == 1 then Some(roots[0]) else None
  }

  /**
   * With a declared primary type the normalized types contain it, leave it unreferenced, and contain
   * every declared type that one of them mentions.
   */
  lemma NormalizedTypesAreTheRootsClosure(raw: Raw)
    requires Normalized(raw).Ok? && Normalized(raw).value.primaryType.Some?
    ensures var p := Normalized(raw).value;
            var structs := ReadStructs(raw.types.members).value;
            && p.primaryType.value in Names(p.types)
            && !Referenced(p.types, p.primaryType.value)
            && (forall d :: d in p.types <==> d in structs && Reaches(structs, p.primaryType.value, d.name))
            && (forall d, m :: d in p.types && m in structs && Mentions(d, m.name) ==> m in p.types)
  {
    var p := Normalized(raw).value;
    var structs := ReadStructs(raw.types.members).value;
    var root := p.primaryType.value;
    ReachesItself(structs, root);
    ClosureIsReachable(structs, root, Declaration(structs, root));
    assert Declaration(structs, root) in p.types;
    forall d
      ensures d in p.types <==> d in structs && Reaches(structs, root, d.name)
    {
      ClosureIsReachable(structs, root, d);
    }
    forall d, m | d in p.types && m in structs && Mentions(d, m.name)
      ensures m in p.types
    {
      ClosureIsClosed(structs, root, d, m);
    }
  }

  /** Encoders that infer the root from the normalized types find exactly the declared one. */
  lemma InferredRootIsTheDeclaredOne(raw: Raw)
    requires raw.types.Obj? && UniqueKeys(raw.types.members)
    requires Normalized(raw).Ok? && Normalized(raw).value.primaryType.Some?
    ensures var p := Normalized(raw).value;
            ResolvePrimaryType(p.types, None) == p.primaryType
  {
    var p := Normalized(raw).value;
    var structs := ReadStructs(raw.types.members).value;
    var root := p.primaryType.value;
    NormalizedTypesAreTheRootsClosure(raw);
    StructNamesAreUnique(raw.types.members);
    KeepEffect(structs, ReachSet(structs, root));
    hide Reaches, Referenced, ReachSet, Mentions, UniqueKeys, UniqueNames, ReadStructs;
    assert p.types == Closure(structs, root);
    hide Normalized, Closure;
    forall d | d in p.types && d.name != root
      ensures Referenced(p.types, d.name)
    {
      ClosureHasOneRoot(structs, root, d);
    }
    OneRoot(p.types, p.types, root);
  }

  lemma {:induction false} OneRoot(types: Types, all: Types, root: string)
    requires UniqueNames(types) && !Referenced(all, root)
    requires forall d :: d in types && d.name != root ==> Referenced(all, d.name)
    ensures RootTypes(types, all) == if root in Names(types) then [root] else []
  {
    if types != [] {
      assert UniqueNames(types[1..]) && forall d :: d in types[1..] ==> d in types;
      OneRoot(types[1..], all, root);
      assert Names(types) == {types[0].name} + Names(types[1..]);
      assert types[0] in types;
    }
  }

  // The normalized payload as input again.
  function FieldJs(f: Field): Js { Obj(true, [Member("name", Str(f.name)), Member("type", Str(f.fieldType))]) }

  function FieldsJs(fields: seq<Field>): seq<Js> {
    if fields == [] then [] else [FieldJs(fields[0])] + FieldsJs(fields[1..])
  }

  function TypesJs(types: Types): seq<Member> {
    if types == [] then [] else [Member(types[0].name, Arr(FieldsJs(types[0].fields)))] + TypesJs(types[1..])
  }

  function AsRaw(p: Payload): Raw {
    Raw(p.domain, Obj(true, TypesJs(p.types)), if p.primaryType.Some? then Str(p.primaryType.value) else Undefined,
        p.message, Undefined)
  }

  lemma FieldReadsBack(f: Field)
    ensures ReadField(FieldJs(f)) == Some(f)
  {
    var members := FieldJs(f).members;
    assert members[1..][0] == members[1];
    assert MemberOf(members, "type") == MemberOf(members[1..], "type");
  }

  lemma {:induction false} FieldsReadBack(fields: seq<Field>)
    ensures ReadFields(FieldsJs(fields)) == Some(fields)
  {
    if fields != [] {
      FieldReadsBack(fields[0]);
      FieldsReadBack(fields[1..]);
      assert [fields[0]] + fields[1..] == fields;
    }
  }

  lemma {:induction false} TypesReadBack(types: Types)
    requires forall d :: d in types ==> d.name != "EIP712Domain" && Declares(d.name)
    ensures ReadStructs(TypesJs(types)) == Ok(types)
  {
    if types != [] {
      assert types[0] in types && forall d :: d in types[1..] ==> d in types;
      FieldsReadBack(types[0].fields);
      TypesReadBack(types[1..]);
      assert [types[0]] + types[1..] == types;
    }
  }

  lemma {:induction false} ReadNames(members: seq<Member>, name: string)
    requires ReadStructs(members).Ok?
    ensures name in Names(ReadStructs(members).value) <==>
            name != "EIP712Domain" && Declares(name) && exists m :: m in members && m.key == name
  {
    if members != [] {
      var rest := members[1..];
      ReadNames(rest, name);
      assert forall m :: m in members <==> m == members[0] || m in rest;
      var structs := ReadStructs(members).value;
      assert members[0].key != "EIP712Domain" && Declares(members[0].key) ==>
          Names(structs) == {members[0].key} + Names(ReadStructs(rest).value);
    }
  }

  /**
   * Without a primary type every declared struct is kept, exactly unless one is named "__proto__": that
   * name is checked like the others but declares nothing.
   */
  lemma DeclaredStructsAreKeptIff(raw: Raw)
    requires Normalized(raw).Ok? && Normalized(raw).value.primaryType.None?
    ensures (forall m :: m in raw.types.members && m.key != "EIP712Domain" ==>
               m.key in Names(Normalized(raw).value.types))
            <==> forall m :: m in raw.types.members ==> Declares(m.key)
  {
    hide CopyObject, ReadStructs, Names, Closure, Referenced;
    var members := raw.types.members;
    forall m | m in members
      ensures m.key in Names(Normalized(raw).value.types) <==> m.key != "EIP712Domain" && Declares(m.key)
    {
      ReadNames(members, m.key);
    }
  }

  lemma {:induction false} StructNamesAreOrdinary(members: seq<Member>)
    requires ReadStructs(members).Ok?
    ensures forall d :: d in ReadStructs(members).value ==> d.name != "EIP712Domain" && Declares(d.name)
  {
    if members != [] {
      StructNamesAreOrdinary(members[1..]);
    }
  }

  lemma Renormalized(p: Payload)
    requires CopyObject(p.domain) == Some(p.domain) && CopyObject(p.message) == Some(p.message)
    requires !p.message.Undefined? && !p.message.Null?
    requires ReadStructs(TypesJs(p.types)) == Ok(p.types) && p.types != []
    requires p.primaryType.Some? ==>
               var root := p.primaryType.value;
               root in Names(p.types) && !Referenced(p.types, root) && Closure(p.types, root) == p.types
    ensures Normalized(AsRaw(p)) == Ok(p)
  {
    hide CopyObject, Closure, Referenced, ReadStructs, TypesJs, Names;
  }

  lemma CopiedObjectIsStable(v: Js)
    requires CopyObject(v).Some?
    ensures CopyObject(CopyObject(v).value) == CopyObject(v) && CopyObject(v).value.Obj?
  {
    CopyIsStable(v);
  }

  lemma NormalizedObjectsAreStable(raw: Raw)
    requires Normalized(raw).Ok?
    ensures var p := Normalized(raw).value;
            && CopyObject(p.domain) == Some(p.domain) && CopyObject(p.message) == Some(p.message)
            && p.message.Obj? && p.types != []
  {
    hide CopyObject, Referenced, ReadStructs, Names, MessageOf, Closure;
    CopiedObjectIsStable(raw.domain);
    CopiedObjectIsStable(MessageOf(raw));
    if raw.primaryType.Str? {
      NormalizedTypesAreTheRootsClosure(raw);
      NamesOfSome(Normalized(raw).value.types, raw.primaryType.text);
    }
  }

  lemma NamesOfSome(types: Types, name: string)
    requires name in Names(types)
    ensures types != []
  {
  }

  lemma NormalizedTypesAreOrdinary(raw: Raw)
    requires Normalized(raw).Ok?
    ensures forall d :: d in Normalized(raw).value.types ==> d.name != "EIP712Domain" && Declares(d.name)
  {
    hide CopyObject, Referenced, Reaches;
    StructNamesAreOrdinary(raw.types.members);
    if raw.primaryType.Str? {
      var structs := ReadStructs(raw.types.members).value;
      KeepEffect(structs, ReachSet(structs, raw.primaryType.text));
    }
  }

  lemma NormalizedRootIsStable(raw: Raw)
    requires Normalized(raw).Ok? && Normalized(raw).value.primaryType.Some?
    ensures var p := Normalized(raw).value;
            var root := p.primaryType.value;
            root in Names(p.types) && !Referenced(p.types, root) && Closure(p.types, root) == p.types
  {
    NormalizedTypesAreTheRootsClosure(raw);
    hide CopyObject, Referenced, Closure, ReadStructs;
    ClosureTwice(ReadStructs(raw.types.members).value, raw.primaryType.text);
  }

  /** Normalizing again changes nothing. */
  lemma NormalizingTwiceChangesNothing(raw: Raw)
    requires Normalized(raw).Ok?
    ensures Normalized(AsRaw(Normalized(raw).value)) == Normalized(raw)
  {
    hide CopyObject, Referenced, Closure, ReadStructs, TypesJs, AsRaw, Declares, Names, MessageOf;
    var p := Normalized(raw).value;
    NormalizedObjectsAreStable(raw);
    NormalizedTypesAreOrdinary(raw);
    TypesReadBack(p.types);
    if p.primaryType.Some? {
      NormalizedRootIsStable(raw);
    }
    Renormalized(p);
  }
}
