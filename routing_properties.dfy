/**
 * What the permission check promises, stated against the recursive
 * definition `Routing.Eval`: which names decide the answer, what the answer
 * then is, and which handlers are touched on the way.
 */
module RoutingProperties {
  import opened Contracts
  import opened Routing

  /** A registered name stops the walk: its resolved object is not a
      middleware, or its handler answers with an error or a falsy value. */
  predicate Decides<C, O, E>(registry: map<string, C>, container: Container<C, O, E>, name: string) {
    name in registry &&
    var handler := container.get(registry[name]);
    !container.isMiddleware(handler) || !container.callHandle(handler).Allows()
  }

  /** The answer a deciding name gives: `false` for an object that is not a
      middleware, otherwise its handler's own result, unchanged. */
  function Verdict<C, O, E>(registry: map<string, C>, container: Container<C, O, E>, name: string): Permission<E>
    requires name in registry
  {
    var handler := container.get(registry[name]);
    if container.isMiddleware(handler) then container.callHandle(handler) else Bool(false)
  }

  /** The events of a deciding name: its handler is resolved, and called only
      if it is a middleware. */
  function StopTrace<C, O, E>(registry: map<string, C>, container: Container<C, O, E>, name: string): seq<Event>
    requires name in registry
  {
    if container.isMiddleware(container.get(registry[name])) then [Resolved(name), Handled(name)]
    else [Resolved(name)]
  }

  /** The events of names that all let the walk go on: every registered one
      is resolved and then handled, unregistered ones leave no trace. */
  function PassTrace<C>(registry: map<string, C>, names: seq<string>): seq<Event> {
    if names == [] then []
    else (if names[0] in registry then [Resolved(names[0]), Handled(names[0])] else [])
         + PassTrace(registry, names[1..])
  }

  /** The names of `names` that are in `registry`, in order. */
  function Registered<C>(registry: map<string, C>, names: seq<string>): seq<string> {
    if names == [] then []
    else (if names[0] in registry then [names[0]] else []) + Registered(registry, names[1..])
  }

  /** With no names the answer is the default, which is `true` when omitted,
      and no handler is touched. */
  lemma EmptyList<C, O, E>(registry: map<string, C>, container: Container<C, O, E>, defaultPermission: bool)
    ensures Eval(registry, container, [], defaultPermission) == Evaluation(Bool(defaultPermission), [])
    ensures Eval(registry, container, []) == Evaluation(Bool(true), [])
  {
  }

  /** Every event of a check is about a name that is both in the list and in
      the registry: after the registry is replaced, names of the earlier one
      are no longer resolved. */
  lemma {:induction false} TraceNames<C, O, E>(registry: map<string, C>, container: Container<C, O, E>,
                                               names: seq<string>, defaultPermission: bool)
    ensures forall e :: e in Eval(registry, container, names, defaultPermission).trace
                        ==> e.name in names && e.name in registry
  {
    if names != [] {
      TraceNames(registry, container, names[1..], defaultPermission);
    }
  }

  /** A name missing from the registry is skipped: the check answers, and
      touches, exactly what it does for the list without it. */
  lemma {:induction false} SkipUnregistered<C, O, E>(registry: map<string, C>, container: Container<C, O, E>,
                                                     names: seq<string>, i: nat, defaultPermission: bool)
    requires i < |names| && names[i] !in registry
    ensures Eval(registry, container, names, defaultPermission)
         == Eval(registry, container, names[..i] + names[i + 1..], defaultPermission)
  {
    var without := names[..i] + names[i + 1..];
    if i == 0 {
      assert without == names[1..];
    } else {
      assert without[0] == names[0];
      assert without[1..] == names[1..][..i - 1] + names[1..][i..];
      SkipUnregistered(registry, container, names[1..], i - 1, defaultPermission);
    }
  }

  /** Only the registered names matter, in their order. */
  lemma {:induction false} OnlyRegisteredMatter<C, O, E>(registry: map<string, C>, container: Container<C, O, E>,
                                                         names: seq<string>, defaultPermission: bool)
    ensures Eval(registry, container, names, defaultPermission)
         == Eval(registry, container, Registered(registry, names), defaultPermission)
  {
    if names != [] {
      OnlyRegisteredMatter(registry, container, names[1..], defaultPermission);
      var rest := Registered(registry, names[1..]);
      if names[0] in registry {
        assert Registered(registry, names) == [names[0]] + rest;
        assert ([names[0]] + rest)[1..] == rest;
      } else {
        assert Registered(registry, names) == rest;
      }
    }
  }

  /** When no name decides, the walk reaches the end: the answer is the
      default and every registered name's handler was resolved and called. */
  lemma {:induction false} NoDecider<C, O, E>(registry: map<string, C>, container: Container<C, O, E>,
                                              names: seq<string>, defaultPermission: bool)
    requires forall j :: 0 <= j < |names| ==> !Decides(registry, container, names[j])
    ensures Eval(registry, container, names, defaultPermission)
         == Evaluation(Bool(defaultPermission), PassTrace(registry, names))
  {
    if names != [] {
      assert !Decides(registry, container, names[0]);
      assert forall j :: 0 <= j < |names[1..]| ==> names[1..][j] == names[j + 1];
      NoDecider(registry, container, names[1..], defaultPermission);
    }
  }

  /** The first deciding name, left to right, gives the answer, and nothing
      after it is resolved or called: the events are those of the names before
      it followed by its own. */
  lemma {:induction false} FirstDecider<C, O, E>(registry: map<string, C>, container: Container<C, O, E>,
                                                 names: seq<string>, i: nat, defaultPermission: bool)
    requires i < |names| && Decides(registry, container, names[i])
    requires forall j :: 0 <= j < i ==> !Decides(registry, container, names[j])
    ensures Eval(registry, container, names, defaultPermission)
         == Evaluation(Verdict(registry, container, names[i]),
                       PassTrace(registry, names[..i]) + StopTrace(registry, container, names[i]))
  {
    if i > 0 {
      assert !Decides(registry, container, names[0]);
      assert names[..i][0] == names[0] && names[..i][1..] == names[1..][..i - 1];
      assert forall j :: 0 <= j < i - 1 ==> names[1..][j] == names[j + 1];
      FirstDecider(registry, container, names[1..], i - 1, defaultPermission);
    }
  }

  /** Short-circuit: once a name of the list decides, appending further names
      changes neither the answer nor the handlers touched. */
  lemma {:induction false} ShortCircuit<C, O, E>(registry: map<string, C>, container: Container<C, O, E>,
                                                 names: seq<string>, i: nat, more: seq<string>,
                                                 defaultPermission: bool)
    requires i < |names| && Decides(registry, container, names[i])
    ensures Eval(registry, container, names + more, defaultPermission)
         == Eval(registry, container, names, defaultPermission)
  {
    assert (names + more)[0] == names[0];
    if i > 0 && !Decides(registry, container, names[0]) {
      assert (names + more)[1..] == names[1..] + more;
      ShortCircuit(registry, container, names[1..], i - 1, more, defaultPermission);
    }
  }

  /** The check allows exactly when the default allows and no name decides. */
  lemma {:induction false} AllowsIff<C, O, E>(registry: map<string, C>, container: Container<C, O, E>,
                                              names: seq<string>, defaultPermission: bool)
    ensures Eval(registry, container, names, defaultPermission).result.Allows()
        <==> defaultPermission && forall j :: 0 <= j < |names| ==> !Decides(registry, container, names[j])
  {
    if names != [] {
      AllowsIff(registry, container, names[1..], defaultPermission);
      assert forall j :: 0 <= j < |names[1..]| ==> names[1..][j] == names[j + 1];
      if Decides(registry, container, names[0]) {
        assert !Eval(registry, container, names, defaultPermission).result.Allows();
      } else {
        assert (forall j :: 0 <= j < |names| ==> !Decides(registry, container, names[j]))
           <==> (forall j :: 0 <= j < |names[1..]| ==> !Decides(registry, container, names[1..][j]));
      }
    }
  }

  /** An error object is never made up by the check: it is the unchanged
      result of the handler of some registered name of the list. */
  lemma {:induction false} ErrorFromHandler<C, O, E>(registry: map<string, C>, container: Container<C, O, E>,
                                                     names: seq<string>, defaultPermission: bool)
    requires Eval(registry, container, names, defaultPermission).result.Error?
    ensures exists j :: 0 <= j < |names| && names[j] in registry
                        && container.isMiddleware(container.get(registry[names[j]]))
                        && container.callHandle(container.get(registry[names[j]]))
                           == Eval(registry, container, names, defaultPermission).result
  {
    var r := Eval(registry, container, names, defaultPermission);
    if !Decides(registry, container, names[0]) {
      ErrorFromHandler(registry, container, names[1..], defaultPermission);
      var j :| 0 <= j < |names[1..]| && names[1..][j] in registry
               && container.isMiddleware(container.get(registry[names[1..][j]]))
               && container.callHandle(container.get(registry[names[1..][j]])) == r.result;
      assert names[j + 1] == names[1..][j];
    }
  }

  /** Passing names leave no event about a name that is not among them. */
  lemma {:induction false} PassTraceNames<C>(registry: map<string, C>, names: seq<string>, name: string)
    requires name !in names
    ensures Handled(name) !in PassTrace(registry, names)
  {
    if names != [] {
      assert name != names[0] && name !in names[1..];
      PassTraceNames(registry, names[1..], name);
    }
  }

  /** When the first deciding name resolves to an object that is not a
      middleware, the answer is `false` and that object's `handle` is never
      called. */
  lemma NotMiddlewareDenies<C, O, E>(registry: map<string, C>, container: Container<C, O, E>,
                                     names: seq<string>, i: nat, defaultPermission: bool)
    requires i < |names| && names[i] in registry && !container.isMiddleware(container.get(registry[names[i]]))
    requires forall j :: 0 <= j < i ==> !Decides(registry, container, names[j])
    ensures Eval(registry, container, names, defaultPermission).result == Bool(false)
    ensures Handled(names[i]) !in Eval(registry, container, names, defaultPermission).trace
  {
    FirstDecider(registry, container, names, i, defaultPermission);
    forall j | 0 <= j < i
      ensures names[..i][j] != names[i]
    {
      assert !Decides(registry, container, names[j]);
    }
    PassTraceNames(registry, names[..i], names[i]);
  }
}
