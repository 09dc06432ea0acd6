/** The two-level handler table of rpc/service_registry.hpp, and what a lookup means in terms of the
    registration history alone. */
module ServiceRegistry {
  import opened Bytes
  import opened Protocol

  datatype HandlerResult = Returns(bytes: Str) | Throws

  /** A `std::function`: empty, or callable. */
  datatype MethodHandler = NoHandler | Handler(run: Str -> HandlerResult)

  datatype ServiceInfo = ServiceInfo(name: Str, methods: map<Str, MethodHandler>, descriptions: map<Str, Str>)

  type Services = map<Str, ServiceInfo>

  datatype Registration =
    | RegisterService(service: Str)
    | RegisterMethod(service: Str, methodName: Str, handler: MethodHandler, description: Str)
    | UnregisterService(service: Str)

  function Apply(services: Services, r: Registration): Services {
    match r
    case RegisterService(s) => services[s := ServiceInfo(s, map[], map[])]
    case UnregisterService(s) => services - {s}
    case RegisterMethod(s, m, h, d) =>
      var info := if s in services then services[s] else ServiceInfo(s, map[], map[]);
      var described := if d != [] then info.descriptions[m := d] else info.descriptions;
      services[s := info.(methods := info.methods[m := h], descriptions := described)]
  }

  function ApplyAll(history: seq<Registration>): Services {
    if history == [] then map[]
    else Apply(ApplyAll(history[..|history| - 1]), history[|history| - 1])
  }

  function FindMethod(services: Services, s: Str, m: Str): MethodHandler {
    if s !in services then NoHandler
    else if m !in services[s].methods then NoHandler
    else services[s].methods[m]
  }

  predicate HasMethod(services: Services, s: Str, m: Str) {
    s in services && m in services[s].methods
  }

  datatype Binding = Unbound | Bound(handler: MethodHandler)

  /** What the history says about a pair: the last registration that concerns it decides. Registering
      or unregistering the service as a whole forgets its methods. */
  function LastBinding(history: seq<Registration>, s: Str, m: Str): Binding {
    if history == [] then Unbound
    else
      var last := history[|history| - 1];
      if last.service == s && (last.RegisterService? || last.UnregisterService?) then Unbound
      else if last.RegisterMethod? && last.service == s && last.methodName == m then Bound(last.handler)
      else LastBinding(history[..|history| - 1], s, m)
  }

  /** Over any registration history, lookup finds the handler of the last registration that concerns the
      pair, and `has_method` holds exactly when there is one. */
  lemma {:induction false} FindIsLastBinding(history: seq<Registration>, s: Str, m: Str)
    ensures HasMethod(ApplyAll(history), s, m) <==> LastBinding(history, s, m).Bound?
    ensures FindMethod(ApplyAll(history), s, m) ==
              match LastBinding(history, s, m) case Unbound => NoHandler case Bound(h) => h
  {
    if history != [] {
      FindIsLastBinding(history[..|history| - 1], s, m);
    }
  }

  /** The description the history leaves for a pair: the last one given that is not empty, unless the service as
      a whole was registered or unregistered since. */
  function LastDescription(history: seq<Registration>, s: Str, m: Str): Str {
    if history == [] then []
    else
      var last := history[|history| - 1];
      if last.service == s && (last.RegisterService? || last.UnregisterService?) then []
      else if last.RegisterMethod? && last.service == s && last.methodName == m && last.description != [] then last.description
      else LastDescription(history[..|history| - 1], s, m)
  }

  /** Every entry carries its own name, and the descriptions are those the history leaves. */
  lemma {:induction false} InfoIsLastDescription(history: seq<Registration>, s: Str, m: Str)
    ensures s in ApplyAll(history) ==>
              var info := ApplyAll(history)[s];
              && info.name == s
              && (m in info.descriptions <==> LastDescription(history, s, m) != [])
              && (m in info.descriptions ==> info.descriptions[m] == LastDescription(history, s, m))
    ensures s !in ApplyAll(history) ==> LastDescription(history, s, m) == []
  {
    if history != [] {
      InfoIsLastDescription(history[..|history| - 1], s, m);
    }
  }

  predicate HasService(services: Services, s: Str) {
    s in services
  }

  /** A service is there exactly if the last registration that concerns it is not its removal. */
  lemma {:induction false} ServiceIsLastMentioned(history: seq<Registration>, s: Str)
    ensures HasService(ApplyAll(history), s) <==>
              exists i :: 0 <= i < |history| && history[i].service == s && !history[i].UnregisterService?
                       && forall j :: i < j < |history| ==> history[j] != UnregisterService(s)
  {
    if history != [] {
      var n := |history| - 1;
      var before, last := history[..n], history[n];
      ServiceIsLastMentioned(before, s);
      if HasService(ApplyAll(history), s) {
        if last.service == s {
          assert history[n].service == s && !history[n].UnregisterService?;
        } else {
          var i :| 0 <= i < n && before[i].service == s && !before[i].UnregisterService?
                   && forall j :: i < j < n ==> before[j] != UnregisterService(s);
          assert history[i].service == s;
          assert forall j :: i < j < |history| ==> j == n || history[j] == before[j];
        }
      }
    }
  }

  class ServiceRegistry {
    var services: Services

    constructor ()
      ensures services == map[]
    {
      services := map[];
    }

    method Register(name: Str)
      modifies this
      ensures services == Apply(old(services), RegisterService(name))
    {
      services := services[name := ServiceInfo(name, map[], map[])];
    }

    method RegisterHandler(service: Str, methodName: Str, handler: MethodHandler, description: Str)
      modifies this
      ensures services == Apply(old(services), RegisterMethod(service, methodName, handler, description))
    {
      if service !in services {
        services := services[service := ServiceInfo(service, map[], map[])];
      }
      var info := services[service];
      info := info.(methods := info.methods[methodName := handler]);
      if description != [] {
        info := info.(descriptions := info.descriptions[methodName := description]);
      }
      services := services[service := info];
    }

    method Unregister(name: Str)
      modifies this
      ensures services == Apply(old(services), UnregisterService(name))
    {
      services := services - {name};
    }
  }
}
