/**
 * The middleware dispatcher: a process-wide registry from middleware name to
 * handler class, and the permission check that walks a list of names against
 * it, resolving each registered handler through the dependency container and
 * stopping at the first one that does not allow the request.
 */
module Routing {
  import opened Contracts

  /** The dependency container, seen only through the three things the
      dispatcher asks of it. `C` is a handler class reference, `O` an object
      the container hands out and `E` an error object.
      - `get` resolves a class reference to an object;
      - `isMiddleware` says whether that object implements the middleware
        contract;
      - `callHandle` invokes the object's `handle` on the current request
        (the request and any other dependencies are injected by the
        container, so they are fixed for one evaluation). */
  datatype Container<!C, !O, E> = Container(
    get: C -> O,
    isMiddleware: O -> bool,
    callHandle: O -> Permission<E>)

  /** What the dispatcher does with the container, per middleware name:
      resolve its handler, then call the handler's `handle`. */
  datatype Event = Resolved(name: string) | Handled(name: string)

  /** The answer of one permission check together with the events it caused,
      in order. */
  datatype Evaluation<E> = Evaluation(result: Permission<E>, trace: seq<Event>)

  /** The permission check, as a left-to-right walk over `names`: names
      missing from `registry` are skipped; a registered name whose resolved
      object is not a middleware denies with `false`; a handler result that
      is an error or falsy is the answer as it is; when the walk reaches the
      end the answer is `defaultPermission`. */
  function Eval<C, O, E>(registry: map<string, C>, container: Container<C, O, E>,
                         names: seq<string>, defaultPermission: bool := true): (r: Evaluation<E>)
    // the check never grants more than the default does
    ensures r.result.Allows() ==> defaultPermission
    // at most two container calls (resolve, then handle) per listed name
    ensures |r.trace| <= 2 * |names|
    decreases |names|
  {
    if names == [] then
      Evaluation(Bool(defaultPermission), [])
    else if names[0] !in registry then
      Eval(registry, container, names[1..], defaultPermission)
    else
      var handler := container.get(registry[names[0]]);
      if !container.isMiddleware(handler) then
        Evaluation(Bool(false), [Resolved(names[0])])
      else
        var permission := container.callHandle(handler);
        if !permission.Allows() then
          Evaluation(permission, [Resolved(names[0]), Handled(names[0])])
        else
          var rest := Eval(registry, container, names[1..], defaultPermission);
          Evaluation(rest.result, [Resolved(names[0]), Handled(names[0])] + rest.trace)
  }

  /** `rest` evaluated after the events `done` of names that all allowed. */
  function After<E>(done: seq<Event>, rest: Evaluation<E>): Evaluation<E> {
    Evaluation(rest.result, done + rest.trace)
  }

  /** The dispatcher class. Its static registry becomes the one field of an
      object; the field starts out empty. */
  class Middleware<C> {
    var middleware: map<string, C>

    constructor ()
      ensures middleware == map[]
    {
      middleware := map[];
    }

    /** Replaces the registry wholesale: no merge with the earlier entries,
        no validation of the new ones. */
    method SetMiddlewareList(list: map<string, C>)
      modifies this
      ensures middleware == list
    {
      middleware := list;
    }

    /** The permission check over the current registry. It has no `modifies`
        clause: the registry is only read. The ghost `trace` records which
        handlers were resolved and called. */
    method IsUserAllowed<O, E>(names: seq<string>, container: Container<C, O, E>,
                               defaultPermission: bool := true)
      returns (r: Permission<E>, ghost trace: seq<Event>)
      ensures r == Eval(middleware, container, names, defaultPermission).result
      ensures trace == Eval(middleware, container, names, defaultPermission).trace
    {
      trace := [];
      var i := 0;
      while i < |names|
        invariant 0 <= i <= |names|
        invariant Eval(middleware, container, names, defaultPermission)
               == After(trace, Eval(middleware, container, names[i..], defaultPermission))
      {
        var name := names[i];
        assert names[i..][1..] == names[i + 1..];
        if name in middleware {
          var handler := container.get(middleware[name]);
          trace := trace + [Resolved(name)];
          if !container.isMiddleware(handler) {
            r := Bool(false);
            return;
          }
          var permission := container.callHandle(handler);
          trace := trace + [Handled(name)];
          if !permission.Allows() {
            r := permission;
            return;
          }
        }
        i := i + 1;
      }
      r := Bool(defaultPermission);
    }
  }
}
