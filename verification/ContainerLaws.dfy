/**
  * Sequences and maps are filled as folds over the parsed elements.
  */
module ContainerLaws {
  import opened Text
  import opened Documents
  import opened Schema
  import opened Cursor
  import opened Mapping
  import opened Acceptance

  // ---------- Sequences ----------

  /** The elements that the children of a document make, each mapped onto a fresh element. */
  function Elements(elem: Type, kids: Kids): (r: Result<seq<Value>>)
    requires Wf(elem) && Routable(TArray(elem), kids)
    decreases kids
  {
    match kids
    case Nil => Ok([])
    case Cons(name, value, rest) =>
      if value.JNull? then Elements(elem, rest)
      else
        FreshHasType(elem);
        var first := if value.JNode? then MapNode(elem, Fresh(elem), value.kids)
                     else Convert(elem, name, ScalarOfJson(value));
        if first.Err? then Err(first.error)
        else match Elements(elem, rest)
          case Err(error) => Err(error)
          case Ok(more) => Ok([first.value] + more)
  }

  function Appended(items: seq<Value>, changed: set<nat>, r: Result<seq<Value>>): Mapped {
    match r
    case Err(error) => Stopped(error)
    case Ok(more) => Mapped(Local(VArray(items + more), changed))
  }

  /** A sequence holds its old contents followed by the parsed elements in order. */
  lemma {:induction false} SequenceIsFold(elem: Type, items: seq<Value>, changed: set<nat>, kids: Kids)
    requires var ty := TArray(elem); Wf(ty) && HasType(ty, VArray(items)) && Routable(ty, kids)
    ensures MapKids(TArray(elem), VArray(items), changed, kids) == Appended(items, changed, Elements(elem, kids))
    decreases kids
  {
    var ty, o := TArray(elem), VArray(items);
    match kids
    case Nil => assert items + [] == items;
    case Cons(name, value, rest) =>
      match value
      case JNull => SequenceIsFold(elem, items, changed, rest);
      case JNode(_, inner) =>
        FreshHasType(elem);
        UseOpens(ty, o, changed, name);
        var opened' := items + [Fresh(elem)];
        assert opened'[|items|] == Fresh(elem);
        var r := MapNode(elem, Fresh(elem), inner);
        if r.Ok? {
          assert opened'[|items| := r.value] == items + [r.value];
          AppendedHasType(elem, items, r.value);
          SequenceIsFold(elem, items + [r.value], changed, rest);
          AppendedTwice(items, r.value, changed, Elements(elem, rest));
        }
      case _ =>
        var r := Convert(elem, name, ScalarOfJson(value));
        if r.Ok? {
          AppendedHasType(elem, items, r.value);
          SequenceIsFold(elem, items + [r.value], changed, rest);
          AppendedTwice(items, r.value, changed, Elements(elem, rest));
        }
  }

  lemma AppendedHasType(elem: Type, items: seq<Value>, v: Value)
    requires HasType(TArray(elem), VArray(items)) && HasType(elem, v)
    ensures HasType(TArray(elem), VArray(items + [v]))
  {
  }

  lemma AppendedTwice(items: seq<Value>, v: Value, changed: set<nat>, r: Result<seq<Value>>)
    ensures Appended(items + [v], changed, r)
         == match r case Err(error) => Stopped(error)
                    case Ok(more) => Mapped(Local(VArray(items + ([v] + more)), changed))
  {
    if r.Ok? {
      assert items + [v] + r.value == items + ([v] + r.value);
    }
  }

  /** What the scalars of a document hold, in order. */
  function Held(kids: Kids): seq<Value> {
    if kids.Nil? then [] else (if IsScalarChild(kids.value) then [Holding(kids.value)] else []) + Held(kids.rest)
  }

  /** The exception for the first scalar that is refused. */
  function FirstRefused(elem: Type, kids: Kids): Option<Error> {
    if kids.Nil? then None
    else if IsScalarChild(kids.value) && ElementError(elem, kids.name, kids.value).Some? then
      ElementError(elem, kids.name, kids.value)
    else FirstRefused(elem, kids.rest)
  }

  /** The elements of a sequence of scalars are what the document holds, unless one is refused. */
  lemma {:induction false} ScalarElements(elem: Type, kids: Kids)
    requires Wf(elem) && IsScalar(elem) && Routable(TArray(elem), kids)
    ensures Elements(elem, kids) ==
            if FirstRefused(elem, kids).Some? then Err(FirstRefused(elem, kids).value) else Ok(Held(kids))
    decreases kids
  {
    if kids.Cons? {
      ScalarElements(elem, kids.rest);
      if kids.value.JNull? {
        assert Held(kids) == [] + Held(kids.rest) == Held(kids.rest);
      } else {
        assert IsScalarChild(kids.value);
        ConvertDecides(elem, kids.name, kids.value);
      }
    }
  }

  // ---------- Maps with scalar values ----------

  function Lookup(es: seq<Entry>, key: string): (r: Option<Value>)
    ensures r.Some? ==> Entry(key, r.value) in es
  {
    if Holds(es, key) then Some(es[Locate(es, key)].value) else None
  }

  lemma LocateFinds(es: seq<Entry>, i: nat)
    requires Ascending(es) && i < |es|
    ensures Locate(es, es[i].key) == i
  {
    KeyLessTotal(es[i].key, es[i].key);
    assert forall j | 0 <= j < i :: KeyLess(es[j].key, es[i].key);
  }

  lemma LookupIs(es: seq<Entry>, key: string)
    requires Ascending(es)
    ensures Lookup(es, key).None? ==> forall i | 0 <= i < |es| :: es[i].key != key
    ensures forall i | 0 <= i < |es| && es[i].key == key :: Lookup(es, key) == Some(es[i].value)
  {
    forall i | 0 <= i < |es| && es[i].key == key ensures Lookup(es, key) == Some(es[i].value) {
      LocateFinds(es, i);
    }
  }

  lemma InsertLookup(es: seq<Entry>, k: string, v: Value, key: string)
    requires Ascending(es)
    ensures Lookup(Insert(es, k, v), key)
         == if key == k && Lookup(es, k).None? then Some(v) else Lookup(es, key)
  {
    hide KeyLess;
    var r := Insert(es, k, v);
    var at := Locate(es, k);
    InsertAscending(es, k, v);
    LookupIs(es, key);
    LookupIs(r, key);
    LookupIs(es, k);
    if !Holds(es, k) {
      assert forall j | 0 <= j < |r| && j != at :: r[j] == es[if j < at then j else j - 1];
      if key == k {
        assert r[at] == Entry(k, v);
      } else if Lookup(es, key).Some? {
        var i := Locate(es, key);
        assert r[if i < at then i else i + 1] == es[i];
      }
    }
  }

  /** Binds `k` to `v`, whether it was bound or not. */
  function Store(es: seq<Entry>, k: string, v: Value): seq<Entry> {
    if Holds(es, k) then es[Locate(es, k) := Entry(k, v)] else Insert(es, k, v)
  }

  /** Binding a key that may be bound already to what it has, or to `x`. */
  lemma StoreKept(es: seq<Entry>, k: string, x: Value)
    ensures var found := Lookup(es, k); Insert(es, k, x) == Store(es, k, if found.Some? then found.value else x)
  {
    if Holds(es, k) {
      assert es[Locate(es, k) := es[Locate(es, k)]] == es;
    }
  }

  /** Making room for a key and then filling it. */
  lemma StoreFilled(es: seq<Entry>, k: string, x: Value, v: Value)
    ensures var at, room := Locate(es, k), Insert(es, k, x);
            && at < |room|
            && room[at] == Entry(k, if Lookup(es, k).Some? then Lookup(es, k).value else x)
            && room[at := Entry(k, v)] == Store(es, k, v)
  {
    hide KeyLess, Locate;
    var at := Locate(es, k);
    if !Holds(es, k) {
      var front, back := es[..at], es[at..];
      assert (front + [Entry(k, x)] + back)[at := Entry(k, v)] == front + [Entry(k, v)] + back;
    }
  }

  lemma StoreLookup(es: seq<Entry>, k: string, v: Value, key: string)
    requires Ascending(es)
    ensures Ascending(Store(es, k, v))
    ensures Lookup(Store(es, k, v), key) == if key == k then Some(v) else Lookup(es, key)
  {
    var r := Store(es, k, v);
    if Holds(es, k) {
      var at := Locate(es, k);
      assert forall j | 0 <= j < |r| :: r[j].key == es[j].key;
      LookupIs(es, key);
      LookupIs(r, key);
      if key == k {
        assert r[at] == Entry(k, v);
      } else if Lookup(es, key).Some? {
        assert r[Locate(es, key)] == es[Locate(es, key)];
      }
    } else {
      InsertAscending(es, k, v);
      InsertLookup(es, k, v, key);
    }
  }

  lemma LookupCons(es: seq<Entry>, key: string)
    requires Ascending(es) && es != []
    ensures Lookup(es, key) == if key == es[0].key then Some(es[0].value) else Lookup(es[1..], key)
    ensures Ascending(es[1..]) && Lookup(es[1..], es[0].key) == None
  {
    LookupIs(es, key);
    LookupIs(es[1..], key);
    LookupIs(es[1..], es[0].key);
    KeyLessTotal(es[0].key, es[0].key);
    if Lookup(es[1..], key).Some? {
      assert es[Locate(es[1..], key) + 1] == es[1..][Locate(es[1..], key)];
    }
  }

  /** Maps in key order with the same bindings are the same. */
  lemma {:induction false} SameBindings(a: seq<Entry>, b: seq<Entry>)
    requires Ascending(a) && Ascending(b) && forall key :: Lookup(a, key) == Lookup(b, key)
    ensures a == b
  {
    if a == [] {
      if b != [] {
        LookupCons(b, b[0].key);
      }
    } else if b == [] {
      LookupCons(a, a[0].key);
    } else {
      LeastKey(a, b);
      LeastKey(b, a);
      KeyLessTotal(a[0].key, b[0].key);
      forall key ensures Lookup(a[1..], key) == Lookup(b[1..], key) {
        LookupCons(a, key);
        LookupCons(b, key);
      }
      LookupCons(a, a[0].key);
      LookupCons(b, a[0].key);
      SameBindings(a[1..], b[1..]);
      assert a == [a[0]] + a[1..] && b == [b[0]] + b[1..];
    }
  }

  lemma LeastKey(a: seq<Entry>, b: seq<Entry>)
    requires Ascending(a) && Ascending(b) && a != [] && b != [] && Lookup(a, b[0].key) == Lookup(b, b[0].key)
    ensures !KeyLess(b[0].key, a[0].key)
  {
    LookupCons(b, b[0].key);
    KeyLessTotal(a[0].key, b[0].key);
    assert Lookup(a, b[0].key).Some?;
  }

  /** The first scalar that a document gives a key. */
  function FirstBinding(kids: Kids, key: string): Option<Value> {
    if kids.Nil? then None
    else if kids.name == key && IsScalarChild(kids.value) then Some(Holding(kids.value))
    else FirstBinding(kids.rest, key)
  }

  /** A map of scalars keeps its old bindings and takes the first new one for every other key. */
  lemma {:induction false} MapIsFold(elem: Type, es: seq<Entry>, changed: set<nat>, kids: Kids, key: string)
    requires var ty := TMap(elem); Wf(ty) && HasType(ty, VMap(es)) && Routable(ty, kids) && IsScalar(elem)
    requires MapKids(TMap(elem), VMap(es), changed, kids).Mapped?
    ensures var l := MapKids(TMap(elem), VMap(es), changed, kids).local;
            && l.changed == changed
            && Lookup(l.obj.entries, key)
               == if Lookup(es, key).Some? then Lookup(es, key) else FirstBinding(kids, key)
    decreases kids
  {
    if kids.Cons? {
      var Cons(name, value, rest) := kids;
      if value.JNull? {
        MapIsFold(elem, es, changed, rest, key);
      } else {
        var v := Convert(elem, name, ScalarOfJson(value)).value;
        ConvertDecides(elem, name, value);
        InsertHasType(TMap(elem), VMap(es), name, v);
        InsertLookup(es, name, v, key);
        MapIsFold(elem, Insert(es, name, v), changed, rest, key);
      }
    }
  }
}
