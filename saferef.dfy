/** blinker's safe references to callables. A bound method is referenced through a
    `BoundMethodWeakref`, which holds weak references to the method's object and function and
    a list of deletion callbacks. All such references live in one process-wide table keyed by
    `(id(object), id(function))`, so that referencing the same bound method twice yields the
    same reference object. Weak references are modelled by liveness flags; the collection of a
    referent is an explicit step that fires the `remove` callback. */
module SafeRef {
  import opened Wrappers

  /** `calculate_key(target)`: the ids of the method's object and of its function. */
  datatype Key = Key(selfId: int, funcId: int)

  /** An `on_delete` argument: something not callable (`None` by default), or a callable that
      either returns or raises when it is run. */
  datatype Callback = NotCallable | Callable(id: int, raises: bool)

  /** A `safe_ref` target: an object without `__self__` (a plain function), or one with
      `__self__` (a method) whose `__self__` is an object or `None`. */
  datatype Target = Plain(id: int) | Method(self: Option<int>, func: int)

  /** `calculate_key(target)` for a method bound to an object. */
  function CalculateKey(target: Target): (k: Key)
    requires target.Method? && target.self.Some?
    ensures k.selfId == target.self.value && k.funcId == target.func
  {
    Key(target.self.value, target.func)
  }

  /** Two bound targets share a key exactly when they pair the same object with the same
      function, so the table holds one reference per bound method. */
  lemma CalculateKeyIdentifies(t: Target, u: Target)
    requires t.Method? && t.self.Some? && u.Method? && u.self.Some?
    ensures CalculateKey(t) == CalculateKey(u) <==> t == u
  {
  }

  /** The callbacks `remove` runs, in order: the callable entries of the list it took. A
      callback that raises is run as well; its exception is caught and reported and the loop
      goes on with the next one. */
  function Invoked(methods: seq<Callback>): (ran: seq<Callback>)
    ensures |ran| <= |methods|
    ensures forall c :: c in ran <==> c in methods && c.Callable?
  {
    if methods == [] then []
    else (if methods[0].Callable? then [methods[0]] else []) + Invoked(methods[1..])
  }

  /** Running the callbacks of a list is running those of its first part, then those of the
      rest: one raising callback does not stop the ones after it. */
  lemma {:induction false} InvokedAppend(a: seq<Callback>, b: seq<Callback>)
    ensures Invoked(a + b) == Invoked(a) + Invoked(b)
    decreases |a|
  {
    if a == [] {
      assert a + b == b;
    } else {
      assert (a + b)[1..] == a[1..] + b;
      InvokedAppend(a[1..], b);
    }
  }

  /** The loop of `remove` over the callbacks it took: each callable one is run with the
      reference as its argument; any exception it raises is caught and reported. Returns the
      callbacks run, in order. */
  method RunCallbacks(methods: seq<Callback>) returns (ran: seq<Callback>)
    ensures ran == Invoked(methods)
  {
    ran := [];
    for i := 0 to |methods|
      invariant ran == Invoked(methods[..i])
    {
      InvokedAppend(methods[..i], [methods[i]]);
      assert methods[..i + 1] == methods[..i] + [methods[i]];
      if methods[i].Callable? {
        ran := ran + [methods[i]];
      }
    }
    assert methods[..|methods|] == methods;
  }

  class BoundMethodWeakref {
    const key: Key
    var deletionMethods: seq<Callback>
    /** Whether `weak_self()` still answers the object. */
    var selfAlive: bool
    /** Whether `weak_func()` still answers the function. */
    var funcAlive: bool

    /** `object.__new__(cls)` followed by the first `__init__`. */
    constructor (key: Key, onDelete: Callback)
      ensures this.key == key && deletionMethods == [onDelete] && selfAlive && funcAlive
    {
      this.key := key;
      deletionMethods := [onDelete];
      selfAlive := true;
      funcAlive := true;
    }

    /** `__init__(target, on_delete)`: the list of deletion callbacks is reset to the one
        given, and fresh weak references to the (live) object and function replace the old
        ones. `weakable` says whether the method's object can be weakly referenced; when it
        cannot, `weakref.ref` raises `TypeError` after the list was reset, and `armed` is
        false. A function can always be weakly referenced. */
    method Init(onDelete: Callback, weakable: bool) returns (armed: bool)
      modifies this
      ensures armed == weakable && deletionMethods == [onDelete]
      ensures weakable ==> selfAlive && funcAlive
      ensures !weakable ==> selfAlive == old(selfAlive) && funcAlive == old(funcAlive)
    {
      deletionMethods := [onDelete];
      if !weakable {
        return false;
      }
      selfAlive := true;
      funcAlive := true;
      return true;
    }

    /** `__call__()`: the bound method, known here by its key, while both the object and the
        function are alive, and `None` otherwise. It changes nothing, so it may be called any
        number of times. */
    function Call(): (m: Option<Key>)
      reads this
      ensures m.Some? <==> selfAlive && funcAlive
      ensures m.Some? ==> m.value == key
    {
      if selfAlive && funcAlive then Some(key) else None
    }

    /** `__eq__(other)`: another reference is equal exactly when its key is; anything else
        is unequal. */
    function Equals(other: Comparand): (eq: bool)
      ensures eq <==> other.Reference? && other.ref.key == key
    {
      match other
      case Reference(r) => r.key == key
      case Other => false
    }
  }

  /** The right operand of `==` against a `BoundMethodWeakref`. */
  datatype Comparand = Reference(ref: BoundMethodWeakref) | Other

  /** Equality of references is an equivalence: it holds between two references exactly when
      they name the same bound method. */
  lemma EqualsIsEquivalence(a: BoundMethodWeakref, b: BoundMethodWeakref, c: BoundMethodWeakref)
    ensures a.Equals(Reference(a))
    ensures a.Equals(Reference(b)) <==> b.Equals(Reference(a))
    ensures a.Equals(Reference(b)) && b.Equals(Reference(c)) ==> a.Equals(Reference(c))
    ensures !a.Equals(Other)
  {
  }

  /** `BoundMethodWeakref._all_instances`: the table of references by key. */
  class Table {
    var instances: map<Key, BoundMethodWeakref>

    /** Every reference is filed under its own key. */
    ghost predicate Valid()
      reads this
    {
      forall k :: k in instances ==> instances[k].key == k
    }

    constructor ()
      ensures instances == map[] && Valid()
    {
      instances := map[];
    }

    /** `__new__(cls, target, on_delete)`: return the reference filed under the key with
        `on_delete` appended to its callbacks, or file a new, initialised one. */
    method New(key: Key, onDelete: Callback) returns (r: BoundMethodWeakref)
      requires Valid()
      modifies this, if key in instances then {instances[key]} else {}
      ensures Valid() && r.key == key && instances == old(instances)[key := r]
      ensures key in old(instances) ==>
        r == old(instances[key]) && r.deletionMethods == old(r.deletionMethods) + [onDelete]
        && r.selfAlive == old(r.selfAlive) && r.funcAlive == old(r.funcAlive)
      ensures key !in old(instances) ==> fresh(r) && r.deletionMethods == [onDelete] && r.selfAlive && r.funcAlive
    {
      if key in instances {
        var current := instances[key];
        current.deletionMethods := current.deletionMethods + [onDelete];
        return current;
      }
      r := new BoundMethodWeakref(key, onDelete);
      instances := instances[key := r];
    }

    /** `BoundMethodWeakref(target, on_delete)`: `__new__`, then Python runs `__init__` on the
        instance it returned. For a key already in the table this second `__init__` resets the
        callbacks, so the one `__new__` appended replaces all earlier ones.
        When the method's object cannot be weakly referenced (`weakable` false), `__init__`
        raises `TypeError`. For a new key the instance `__new__` filed is then dropped, and the
        table, which holds its values weakly, loses the entry with it. */
    method Construct(key: Key, onDelete: Callback, weakable: bool) returns (res: Result<BoundMethodWeakref, SafeRefError>)
      requires Valid()
      modifies this, if key in instances then {instances[key]} else {}
      ensures Valid()
      ensures weakable ==>
        && res.Ok? && res.value.key == key && instances == old(instances)[key := res.value]
        && (key in old(instances) ==> res.value == old(instances[key]))
        && (key !in old(instances) ==> fresh(res.value))
        && res.value.deletionMethods == [onDelete] && res.value.selfAlive && res.value.funcAlive
      ensures !weakable ==>
        && res == Err(NotWeaklyReferenceable) && instances == old(instances)
        && (key in old(instances) ==>
              && old(instances[key]).deletionMethods == [onDelete]
              && old(instances[key]).selfAlive == old(instances[key].selfAlive)
              && old(instances[key]).funcAlive == old(instances[key].funcAlive))
    {
      if !weakable && key !in instances {
        return Err(NotWeaklyReferenceable);
      }
      var r := New(key, onDelete);
      var armed := r.Init(onDelete, weakable);
      if !armed {
        return Err(NotWeaklyReferenceable);
      }
      return Ok(r);
    }

    /** The `remove` callback of r's weak references: take and clear the callback list,
        drop the table entry under r's key if there is one, then run the callbacks taken.
        Returns the callbacks run, in order. */
    method Remove(r: BoundMethodWeakref) returns (ran: seq<Callback>)
      requires Valid()
      modifies this, r
      ensures Valid()
      ensures ran == Invoked(old(r.deletionMethods))
      ensures r.deletionMethods == [] && r.selfAlive == old(r.selfAlive) && r.funcAlive == old(r.funcAlive)
      ensures instances == old(instances) - {r.key}
    {
      var methods := r.deletionMethods;
      r.deletionMethods := [];
      if r.key in instances {
        instances := instances - {r.key};
      }
      ran := RunCallbacks(methods);
    }

    /** The method's object is collected: `weak_self` dies and fires `remove`. */
    method SelfCollected(r: BoundMethodWeakref) returns (ran: seq<Callback>)
      requires Valid()
      modifies this, r
      ensures Valid() && !r.selfAlive && r.Call() == None
      ensures ran == Invoked(old(r.deletionMethods)) && r.deletionMethods == []
      ensures instances == old(instances) - {r.key}
    {
      r.selfAlive := false;
      ran := Remove(r);
    }

    /** The method's function is collected: `weak_func` dies and fires `remove`. */
    method FuncCollected(r: BoundMethodWeakref) returns (ran: seq<Callback>)
      requires Valid()
      modifies this, r
      ensures Valid() && !r.funcAlive && r.Call() == None
      ensures ran == Invoked(old(r.deletionMethods)) && r.deletionMethods == []
      ensures instances == old(instances) - {r.key}
    {
      r.funcAlive := false;
      ran := Remove(r);
    }
  }

  /** Both referents dying fires `remove` twice; the second run finds no callbacks. */
  method BothCollected(table: Table, r: BoundMethodWeakref) returns (first: seq<Callback>, second: seq<Callback>)
    requires table.Valid()
    modifies table, r
    ensures first == Invoked(old(r.deletionMethods)) && second == []
    ensures r.Call() == None && r !in table.instances.Values
  {
    first := table.SelfCollected(r);
    second := table.FuncCollected(r);
  }

  /** The `TypeError` that `weakref.ref` raises for an object that cannot be weakly
      referenced. */
  datatype SafeRefError = NotWeaklyReferenceable

  /** What `safe_ref(target, on_delete)` returns. */
  datatype SafeReference =
    | WeakRef(target: int, callback: Option<Callback>)
    | BoundRef(ref: BoundMethodWeakref)
    | NoReference

  /** `safe_ref(target, on_delete)`: a plain weak reference (with `on_delete` as its callback
      only when that is callable) for a target without `__self__`, the table's reference for a
      method bound to an object, and `None` for a method whose `__self__` is `None`.
      `weakable` says whether the object to be weakly referenced (the target itself, or the
      method's `__self__`) can be; when it cannot, `TypeError` is raised. */
  method SafeReferenceTo(table: Table, target: Target, onDelete: Callback, weakable: bool)
    returns (res: Result<SafeReference, SafeRefError>)
    requires table.Valid()
    modifies table, if target.Method? && target.self.Some? && CalculateKey(target) in table.instances
      then {table.instances[CalculateKey(target)]} else {}
    ensures table.Valid()
    ensures res.Err? <==> !weakable && !(target.Method? && target.self.None?)
    ensures res.Err? ==> res.error == NotWeaklyReferenceable && table.instances == old(table.instances)
    ensures target.Plain? && weakable ==>
      res == Ok(WeakRef(target.id, if onDelete.Callable? then Some(onDelete) else None))
      && table.instances == old(table.instances)
    ensures target.Method? && target.self.None? ==> res == Ok(NoReference) && table.instances == old(table.instances)
    ensures target.Method? && target.self.Some? && weakable ==>
      var key := CalculateKey(target);
      && res.Ok? && res.value.BoundRef? && res.value.ref.key == key
      && table.instances == old(table.instances)[key := res.value.ref]
      && res.value.ref.deletionMethods == [onDelete] && res.value.ref.selfAlive && res.value.ref.funcAlive
      && (key in old(table.instances) ==> res.value.ref == old(table.instances)[key])
      && (key !in old(table.instances) ==> fresh(res.value.ref))
  {
    if target.Plain? {
      if !weakable {
        return Err(NotWeaklyReferenceable);
      }
      return Ok(WeakRef(target.id, if onDelete.Callable? then Some(onDelete) else None));
    }
    if target.self.None? {
      return Ok(NoReference);
    }
    var r := table.Construct(CalculateKey(target), onDelete, weakable);
    if r.Err? {
      return Err(r.error);
    }
    return Ok(BoundRef(r.value));
  }
}
