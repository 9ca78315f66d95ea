/** The environment of a command: entries are dropped in place and replacements appended, layer by layer. */
module Environment {
  import opened Options

  /** The name and the value of an entry, parted at the first '='; None when there is none. */
  function Cut(e: string): Option<(string, string)> {
    if e == "" then None
    else if e[0] == '=' then Some(("", e[1..]))
    else
      match Cut(e[1..])
      case None => None
      case Some(p) => Some(([e[0]] + p.0, p.1))
  }

  predicate Names(e: string, key: string) { Cut(e).Some? && Cut(e).value.0 == key }

  predicate NamesAny(e: string, keys: set<string>) { Cut(e).Some? && Cut(e).value.0 in keys }

  function Entry(key: string, value: string): string { key + "=" + value }

  lemma {:induction false} CutEntry(key: string, value: string)
    requires '=' !in key
    ensures Cut(Entry(key, value)) == Some((key, value))
  {
    if key == "" {
      assert Entry(key, value)[1..] == value;
    } else {
      assert Entry(key, value)[1..] == Entry(key[1..], value);
      CutEntry(key[1..], value);
      assert [key[0]] + key[1..] == key;
    }
  }

  /** How a program finds a variable: the first entry that names it. */
  function Lookup(env: seq<string>, key: string): Option<string> {
    if env == [] then None
    else if Names(env[0], key) then Some(Cut(env[0]).value.1)
    else Lookup(env[1..], key)
  }

  function Occurrences(env: seq<string>, key: string): nat {
    if env == [] then 0 else (if Names(env[0], key) then 1 else 0) + Occurrences(env[1..], key)
  }

  /** The entries that name none of the keys, in order. */
  function Without(env: seq<string>, keys: set<string>): seq<string> {
    if env == [] then []
    else
      var last := env[|env| - 1];
      Without(env[..|env| - 1], keys) + if NamesAny(last, keys) then [] else [last]
  }

  /** The entries for a map, in a given order of its keys. */
  function Entries(vars: map<string, string>, order: seq<string>): seq<string>
    requires forall k :: k in order ==> k in vars
  {
    if order == [] then []
    else Entries(vars, order[..|order| - 1]) + [Entry(order[|order| - 1], vars[order[|order| - 1]])]
  }

  /** An iteration order of the keys of a map. */
  ghost predicate Enumerates(order: seq<string>, vars: map<string, string>) {
    && |order| == |vars| && (forall k :: k in order <==> k in vars)
    && (forall i, j :: 0 <= i < j < |order| ==> order[i] != order[j])
  }

  predicate PlainKeys(vars: map<string, string>) { forall k :: k in vars ==> '=' !in k }

  /** One layer: what it overrides is dropped, then it is appended. */
  function Layer(env: seq<string>, vars: map<string, string>, order: seq<string>): seq<string>
    requires forall k :: k in order ==> k in vars
  {
    Without(env, vars.Keys) + Entries(vars, order)
  }

  // ---- Lookup and occurrences along the layers ----

  lemma {:induction false} LookupAppend(a: seq<string>, b: seq<string>, key: string)
    ensures Lookup(a + b, key) == if Lookup(a, key).Some? then Lookup(a, key) else Lookup(b, key)
    ensures Occurrences(a + b, key) == Occurrences(a, key) + Occurrences(b, key)
  {
    if a == [] {
      assert a + b == b;
    } else {
      assert (a + b)[1..] == a[1..] + b;
      LookupAppend(a[1..], b, key);
    }
  }

  lemma WithoutLast(env: seq<string>, keys: set<string>)
    requires env != []
    ensures var front := Without(env[..|env| - 1], keys);
            Without(env, keys) == if NamesAny(env[|env| - 1], keys) then front else front + [env[|env| - 1]]
  {}

  lemma {:induction false} WithoutAppend(a: seq<string>, b: seq<string>, keys: set<string>)
    ensures Without(a + b, keys) == Without(a, keys) + Without(b, keys)
  {
    if b == [] {
      assert a + b == a;
    } else {
      assert (a + b)[..|a + b| - 1] == a + b[..|b| - 1];
      WithoutAppend(a, b[..|b| - 1], keys);
    }
  }

  /** Dropping hides exactly the dropped keys. */
  lemma {:induction false} LookupWithout(env: seq<string>, keys: set<string>, key: string)
    ensures key in keys ==> Lookup(Without(env, keys), key) == None && Occurrences(Without(env, keys), key) == 0
    ensures key !in keys ==>
              && Lookup(Without(env, keys), key) == Lookup(env, key)
              && Occurrences(Without(env, keys), key) == Occurrences(env, key)
  {
    if env != [] {
      var (front, last) := (env[..|env| - 1], env[|env| - 1]);
      LookupWithout(front, keys, key);
      assert env == front + [last];
      WithoutLast(env, keys);
      LookupAppend(front, [last], key);
      LookupAppend(Without(front, keys), [last], key);
      assert Lookup([], key) == None && Occurrences([], key) == 0;
    }
  }

  lemma {:induction false} LookupEntries(vars: map<string, string>, order: seq<string>, key: string)
    requires PlainKeys(vars) && forall k :: k in order ==> k in vars
    requires forall i, j :: 0 <= i < j < |order| ==> order[i] != order[j]
    ensures Lookup(Entries(vars, order), key) == if key in order then Some(vars[key]) else None
    ensures Occurrences(Entries(vars, order), key) == if key in order then 1 else 0
  {
    if order != [] {
      var (front, last) := (order[..|order| - 1], order[|order| - 1]);
      assert forall k :: k in order <==> k in front || k == last;
      LookupEntries(vars, front, key);
      CutEntry(last, vars[last]);
      LookupAppend(Entries(vars, front), [Entry(last, vars[last])], key);
      assert Lookup([], key) == None && Occurrences([], key) == 0;
    }
  }

  lemma LookupLayer(env: seq<string>, vars: map<string, string>, order: seq<string>, key: string)
    requires PlainKeys(vars) && Enumerates(order, vars)
    ensures Lookup(Layer(env, vars, order), key) == if key in vars then Some(vars[key]) else Lookup(env, key)
    ensures Occurrences(Layer(env, vars, order), key) == if key in vars then 1 else Occurrences(env, key)
  {
    LookupWithout(env, vars.Keys, key);
    LookupEntries(vars, order, key);
    LookupAppend(Without(env, vars.Keys), Entries(vars, order), key);
  }

  lemma {:induction false} WithoutEntries(vars: map<string, string>, order: seq<string>, keys: set<string>)
    requires PlainKeys(vars) && (forall k :: k in order ==> k in vars) && vars.Keys <= keys
    ensures Without(Entries(vars, order), keys) == []
  {
    if order != [] {
      var last := order[|order| - 1];
      WithoutEntries(vars, order[..|order| - 1], keys);
      CutEntry(last, vars[last]);
      var es := Entries(vars, order);
      assert es[..|es| - 1] == Entries(vars, order[..|order| - 1]);
    }
  }

  lemma {:induction false} WithoutTwice(env: seq<string>, keys: set<string>, more: set<string>)
    requires keys <= more
    ensures Without(Without(env, keys), more) == Without(env, more)
  {
    if env != [] {
      var (front, last) := (env[..|env| - 1], env[|env| - 1]);
      WithoutTwice(front, keys, more);
      WithoutLast(env, keys);
      WithoutLast(env, more);
      if !NamesAny(last, keys) {
        var kept := Without(front, keys) + [last];
        assert kept[..|kept| - 1] == Without(front, keys);
        WithoutLast(kept, more);
      }
    }
  }

  lemma WithoutLayer(env: seq<string>, vars: map<string, string>, order: seq<string>, keys: set<string>)
    requires PlainKeys(vars) && Enumerates(order, vars) && vars.Keys <= keys
    ensures Without(Layer(env, vars, order), keys) == Without(env, keys)
  {
    WithoutAppend(Without(env, vars.Keys), Entries(vars, order), keys);
    WithoutTwice(env, vars.Keys, keys);
    WithoutEntries(vars, order, keys);
  }

  /** The final environment: a service variable wins over an injected one and both over everything before;
      each occurs exactly once, so that it does not matter whether the first or the last entry counts; and all
      other entries, malformed ones included, are kept in order. */
  lemma LayersWin(env: seq<string>, inject: map<string, string>, injectOrder: seq<string>,
                  service: map<string, string>, serviceOrder: seq<string>, key: string)
    requires PlainKeys(inject) && Enumerates(injectOrder, inject)
    requires PlainKeys(service) && Enumerates(serviceOrder, service)
    ensures var final := Layer(Layer(env, inject, injectOrder), service, serviceOrder);
            && Lookup(final, key) == (if key in service then Some(service[key])
                                      else if key in inject then Some(inject[key]) else Lookup(env, key))
            && (Occurrences(final, key) == if key in service || key in inject then 1 else Occurrences(env, key))
            && Without(final, inject.Keys + service.Keys) == Without(env, inject.Keys + service.Keys)
  {
    hide Cut, Lookup, Occurrences, Without, Entries, Layer;
    var middle := Layer(env, inject, injectOrder);
    LookupLayer(env, inject, injectOrder, key);
    LookupLayer(middle, service, serviceOrder, key);
    WithoutLayer(env, inject, injectOrder, inject.Keys + service.Keys);
    WithoutLayer(middle, service, serviceOrder, inject.Keys + service.Keys);
  }

  lemma {:induction false} NamesArePlain(e: string)
    requires Cut(e).Some?
    ensures '=' !in Cut(e).value.0 && e == Entry(Cut(e).value.0, Cut(e).value.1)
  {
    if e[0] != '=' {
      NamesArePlain(e[1..]);
      assert e == [e[0]] + e[1..];
    }
  }

  /** A name with an '=' in it is out of reach: an entry written for it is never found under it. */
  lemma {:induction false} OnlyPlainNamesAreFound(env: seq<string>, key: string)
    requires '=' in key
    ensures Lookup(env, key) == None && Occurrences(env, key) == 0
  {
    if env != [] {
      if Cut(env[0]).Some? { NamesArePlain(env[0]); }
      OnlyPlainNamesAreFound(env[1..], key);
    }
  }

  /** A layer gives all its keys their values exactly when they are free of '='. */
  lemma LayerExactly(env: seq<string>, vars: map<string, string>, order: seq<string>)
    requires Enumerates(order, vars)
    ensures (forall k :: k in vars ==> Lookup(Layer(env, vars, order), k) == Some(vars[k])) <==> PlainKeys(vars)
  {
    hide Lookup, Layer, Enumerates;
    assert forall k :: k in order ==> k in vars by { EnumeratesKeys(order, vars); }
    if PlainKeys(vars) {
      forall k | k in vars ensures Lookup(Layer(env, vars, order), k) == Some(vars[k]) {
        LookupLayer(env, vars, order, k);
      }
    }
    if forall k :: k in vars ==> Lookup(Layer(env, vars, order), k) == Some(vars[k]) {
      forall k | k in vars ensures '=' !in k {
        if '=' in k { OnlyPlainNamesAreFound(Layer(env, vars, order), k); }
      }
    }
  }

  lemma EnumeratesKeys(order: seq<string>, vars: map<string, string>)
    requires Enumerates(order, vars)
    ensures forall k :: k in order ==> k in vars
  {}

  // ---- The code: a slice is an array and a length ----

  /** Filtering in place. The kept entries are written over the front of the array they are read from. */
  method DropInPlace(a: array<string>, n: nat, keys: set<string>) returns (kept: nat)
    requires n <= a.Length
    modifies a
    ensures kept <= n && a[..kept] == Without(old(a[..n]), keys)
    ensures a[n..] == old(a[n..])
  {
    hide Without, Cut;
    ghost var was := a[..n];
    kept := 0;
    assert a[..kept] == Without(was[..0], keys) by { WithoutNone(keys); }
    for i := 0 to n
      invariant kept <= i && a[..kept] == Without(was[..i], keys)
      invariant forall k :: i <= k < a.Length ==> a[k] == old(a[k])
    {
      var e := a[i];
      assert e == was[i];
      assert was[..i + 1][..i] == was[..i] && was[..i + 1][i] == e;
      WithoutLast(was[..i + 1], keys);
      var c := Cut(e);
      if c.Some? && c.value.0 in keys { continue; }
      a[kept] := e;
      kept := kept + 1;
    }
    assert was[..n] == was;
  }

  lemma WithoutNone(keys: set<string>)
    ensures Without([], keys) == []
  {}

  /** Appending writes behind the slice while there is room, and moves to a larger array otherwise. */
  method Append(a: array<string>, n: nat, e: string) returns (b: array<string>)
    requires n <= a.Length
    modifies a
    ensures b == a || fresh(b)
    ensures n < b.Length && b[..n + 1] == old(a[..n]) + [e]
  {
    b := a;
    if n == a.Length {
      b := new string[2 * n + 1](_ => "");
      for i := 0 to n
        invariant b != a && fresh(b) && b.Length == 2 * n + 1
        invariant b[..i] == a[..i] && a[..] == old(a[..])
      {
        b[i] := a[i];
      }
    }
    b[n] := e;
  }

  /** Appending the entries of a map. */
  method AppendAll(a: array<string>, n: nat, vars: map<string, string>, order: seq<string>)
    returns (b: array<string>, m: nat)
    requires n <= a.Length && forall k :: k in order ==> k in vars
    modifies a
    ensures b == a || fresh(b)
    ensures m <= b.Length && b[..m] == old(a[..n]) + Entries(vars, order)
  {
    b, m := a, n;
    for i := 0 to |order|
      invariant (b == a || fresh(b)) && m <= b.Length
      invariant b[..m] == old(a[..n]) + Entries(vars, order[..i])
    {
      var k := order[i];
      assert order[..i + 1][..i] == order[..i];
      b := Append(b, m, Entry(k, vars[k]));
      m := m + 1;
    }
    assert order[..|order|] == order;
  }

  lemma BuiltLookup(built: seq<string>, extra: map<string, string>, extraOrder: seq<string>,
                    inject: map<string, string>, injectOrder: seq<string>,
                    service: map<string, string>, serviceOrder: seq<string>, key: string)
    requires PlainKeys(extra) && Enumerates(extraOrder, extra)
    requires PlainKeys(inject) && Enumerates(injectOrder, inject)
    requires PlainKeys(service) && Enumerates(serviceOrder, service)
    ensures Lookup(Layer(Layer(built + Entries(extra, extraOrder), inject, injectOrder), service, serviceOrder), key) ==
            if key in service then Some(service[key])
            else if key in inject then Some(inject[key])
            else if Lookup(built, key).Some? then Lookup(built, key)
            else if key in extra then Some(extra[key]) else None
  {
    hide Cut, Lookup, Occurrences, Without, Entries, Layer;
    LayersWin(built + Entries(extra, extraOrder), inject, injectOrder, service, serviceOrder, key);
    LookupAppend(built, Entries(extra, extraOrder), key);
    LookupEntries(extra, extraOrder, key);
  }

  /** The environment handed to the command: extra entries are appended behind the built ones, which keep
      precedence; the injected and then the service variables replace what they name. */
  method BuildEnvironment(built: array<string>, n: nat, extra: map<string, string>, extraOrder: seq<string>,
                          inject: map<string, string>, injectOrder: seq<string>,
                          service: map<string, string>, serviceOrder: seq<string>)
    returns (env: array<string>, len: nat)
    requires n <= built.Length
    requires Enumerates(extraOrder, extra) && Enumerates(injectOrder, inject) && Enumerates(serviceOrder, service)
    modifies built
    ensures len <= env.Length
    ensures env[..len] ==
            Layer(Layer(old(built[..n]) + Entries(extra, extraOrder), inject, injectOrder), service, serviceOrder)
    ensures PlainKeys(extra) && PlainKeys(inject) && PlainKeys(service) ==>
              forall key :: Lookup(env[..len], key) ==
                if key in service then Some(service[key])
                else if key in inject then Some(inject[key])
                else if Lookup(old(built[..n]), key).Some? then Lookup(old(built[..n]), key)
                else if key in extra then Some(extra[key]) else None
  {
    hide Without, Entries, Lookup;
    env, len := AppendAll(built, n, extra, extraOrder);
    if |inject| > 0 {
      len := DropInPlace(env, len, inject.Keys);
      env, len := AppendAll(env, len, inject, injectOrder);
    } else {
      EmptyLayer(env[..len], inject, injectOrder);
    }
    if |service| > 0 {
      len := DropInPlace(env, len, service.Keys);
      env, len := AppendAll(env, len, service, serviceOrder);
    } else {
      EmptyLayer(env[..len], service, serviceOrder);
    }
    if PlainKeys(extra) && PlainKeys(inject) && PlainKeys(service) {
      ghost var was := old(built[..n]);
      forall key
        ensures Lookup(env[..len], key) ==
                if key in service then Some(service[key])
                else if key in inject then Some(inject[key])
                else if Lookup(was, key).Some? then Lookup(was, key)
                else if key in extra then Some(extra[key]) else None
      {
        BuiltLookup(was, extra, extraOrder, inject, injectOrder, service, serviceOrder, key);
      }
    }
  }

  lemma {:induction false} WithoutNothing(env: seq<string>)
    ensures Without(env, {}) == env
  {
    if env != [] {
      WithoutNothing(env[..|env| - 1]);
      assert env == env[..|env| - 1] + [env[|env| - 1]];
    }
  }

  lemma EmptyLayer(env: seq<string>, vars: map<string, string>, order: seq<string>)
    requires |vars| == 0 && Enumerates(order, vars)
    ensures Layer(env, vars, order) == env
  {
    assert vars.Keys == {};
    WithoutNothing(env);
  }
}
