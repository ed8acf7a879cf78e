# Middleware permission check of the wpmvc routing layer

This project models the middleware dispatcher of the wpmvc routing package
(`src/Middleware.php`) and proves what its permission check decides.

The dispatcher keeps a process-wide registry from middleware name to handler
class. `set_middleware_list` replaces that registry. `is_user_allowed` walks a
list of middleware names from left to right:

- it skips names that are not registered;
- it resolves each registered handler class through the dependency container;
- it answers `false` when the resolved object does not implement the
  middleware contract;
- otherwise it calls the object's `handle`, and it returns the first result
  that is an error object or falsy, unchanged;
- when no name stops the walk, it returns `default_permission`, which is
  `true` when omitted.

Layout:

- `contracts.dfy`, module `Contracts`: the `bool|WP_Error` result of a
  middleware's `handle` (`Permission`), and `Allows`, the test the dispatcher
  applies to that result.
- `routing.dfy`, module `Routing`: the container, seen as three functions
  (`get`, `isMiddleware`, `callHandle`). Also `Eval`, the check as a
  recursive definition, and the class `Middleware`. The class has the registry
  as a field, `SetMiddlewareList`, and `IsUserAllowed`. `IsUserAllowed` is the
  `foreach` loop with early returns. It is proved equal to `Eval`.
- `routing_properties.dfy`, module `RoutingProperties`: what the check
  promises, as lemmas about `Eval`.

To make "later handlers are never invoked" something a contract can state,
every evaluation also yields a trace. It lists, in order, which names had
their handler resolved (`Resolved`) and which had it called (`Handled`). In
`IsUserAllowed` the trace is a ghost out-parameter, so it costs nothing at
run time.

Policy for unregistered names: the code skips them (`continue`) and the
model does the same. Denying them would be stricter; the model does not do
that.

## Model

| member | source | states |
|---|---|---|
| `Routing.Middleware.constructor` | src/Middleware.php:12 | The registry starts out empty. |
| `Routing.Middleware.SetMiddlewareList` | src/Middleware.php:14-16 | Afterwards the registry is exactly the given map: earlier entries are discarded, nothing is merged or validated. |
| `Routing.Middleware.IsUserAllowed` | src/Middleware.php:23-46 | The loop with early returns yields the same answer and the same resolve/handle events as the definition `Eval` over the current registry. It has no `modifies` clause, so the registry is the same after the call. `default_permission` defaults to `true`. |
| `Routing.Eval` | src/Middleware.php:23-46 | The check never allows unless the default allows. It makes at most two container calls (resolve, then handle) per listed name. |
| `RoutingProperties.EmptyList` | src/Middleware.php:23-45 | With an empty name list the answer is the default, `true` when omitted, and no handler is touched. |
| `RoutingProperties.TraceNames` | src/Middleware.php:26-38 | Only names that are both listed and registered are ever resolved or handled. |
| `RoutingProperties.SkipUnregistered` | src/Middleware.php:27-29 | Removing an unregistered name from the list changes neither the answer nor the handlers touched. |
| `RoutingProperties.OnlyRegisteredMatter` | src/Middleware.php:26-29 | The check over a list equals the check over its registered names alone, in order. |
| `RoutingProperties.NoDecider` | src/Middleware.php:34-45 | If every registered name resolves to a middleware whose `handle` returns `true`, the answer is the default, and every registered name's handler was resolved and called, in order. |
| `RoutingProperties.FirstDecider` | src/Middleware.php:26-43 | The first registered name, left to right, that is not a middleware or whose handler returns an error or a falsy value decides. The answer is `false` for a non-middleware, otherwise that handler's result unchanged. The trace is the earlier names' events followed by that name's own, so nothing later is resolved or called. |
| `RoutingProperties.ShortCircuit` | src/Middleware.php:26-43 | Once a name of the list decides, appending further names changes neither the answer nor the trace. |
| `RoutingProperties.AllowsIff` | src/Middleware.php:40-45 | The answer is `true` if and only if the default is `true` and no listed name decides. |
| `RoutingProperties.ErrorFromHandler` | src/Middleware.php:38-42 | An error answer is never made up: it is the unchanged result of the `handle` of some registered middleware of the list. |
| `RoutingProperties.NotMiddlewareDenies` | src/Middleware.php:32-36 | When the first deciding name resolves to a non-middleware object, the answer is `false` and that object's `handle` is never called. |

## Left out

- The dependency container (`RouteServiceProvider::$container`, its `get` and its reflection-based `call`) is a foreign library. It is a parameter made of three total functions. A `get` or `call` that throws, and a container that hands out a different object for the same class on each call, are not modelled. `callHandle` is a fixed function of the object, so a handler whose answer changes from one call to the next is not modelled either: a name listed twice gets the same answer both times.
- The request (`WP_REST_Request`) is not a parameter. The container injects it into `handle`, so it is fixed inside `callHandle` for one evaluation. The contents of `WP_Error` are an opaque type parameter.
- Falsy values other than `false`: the model uses the `bool|WP_Error` return type declared in `src/Contracts/Middleware.php:15-17`. A handler that breaks that declaration (returns `null`, `0`, `""`, `[]`) is not modelled.
- Keys of the registry are strings. The integer keys a PHP array may also have are not modelled.
- The `defined( 'ABSPATH' ) || exit` guard is WordPress bootstrap code, not dispatcher logic.
- Turning a denial into an HTTP 403 response happens in the route layer, which is not part of this model.
- The registry is a static field in the source and a field of one `Middleware` object here. Nothing touches it concurrently in the source, so no concurrency is modelled.
