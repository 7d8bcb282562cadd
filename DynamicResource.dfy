/**
 * A resource whose routes are registered at run time: the handlers are
 * ordered by descending path depth (count of '/'), each gets an action whose
 * id is its index, a request resolves to the first action that matches, and
 * dispatch looks the action id up in the handler list.
 */
module Routing {
  import opened Wrappers
  import Decimal

  /** The HTTP methods a handler can be registered for. */
  datatype Method = POST | GET | PUT | PATCH | DELETE | HEAD | TRACE | OPTIONS | CONNECT

  /** The enum constant's name, which `toString()` answers. */
  function MethodName(m: Method): string
  {
    match m
    case POST => "POST"
    case GET => "GET"
    case PUT => "PUT"
    case PATCH => "PATCH"
    case DELETE => "DELETE"
    case HEAD => "HEAD"
    case TRACE => "TRACE"
    case OPTIONS => "OPTIONS"
    case CONNECT => "CONNECT"
  }

  /** A registered route: method, path template and a description of the handler's parameters. */
  datatype RequestHandler = RequestHandler(httpMethod: Method, path: string, actionSignature: string)

  /** An entry of the action table. */
  datatype Action = Action(id: nat, httpMethod: string, uri: string, to: string, disallowPathParametersWithSlash: bool)

  datatype Parameter = Parameter(name: string, value: string)

  /** The outcome of matching one action, or the shared unmatched value. */
  datatype MatchResults = Unmatched | Matched(action: Action, parameters: seq<Parameter>)

  /** `Action.unmatchedResults`. */
  const UnmatchedResults: MatchResults := Unmatched

  /** `Action.matchWith(method, uri)`: path-template matching of one action. */
  type Matcher = (Action, Method, string) -> MatchResults

  // ---------------------------------------------------------------------
  // Ordering the handlers by path depth

  function SlashCount(path: string): (n: nat)
    ensures n <= |path|
  {
    if path == [] then 0
    else (if path[0] == '/' then 1 else 0) + SlashCount(path[1..])
  }

  function Slashes(h: RequestHandler): nat
  {
    SlashCount(h.path)
  }

  /** Slash counts never increase along `hs`. */
  ghost predicate DeepestFirst(hs: seq<RequestHandler>)
  {
    forall i, j :: 0 <= i < j < |hs| ==> Slashes(hs[i]) >= Slashes(hs[j])
  }

  /** The handlers of `hs` with exactly `k` slashes, in their order in `hs`. */
  function WithSlashes(hs: seq<RequestHandler>, k: nat): seq<RequestHandler>
  {
    if hs == [] then []
    else (if Slashes(hs[0]) == k then [hs[0]] else []) + WithSlashes(hs[1..], k)
  }

  /** Inserts `h` in front of the first handler with no more slashes than it has. */
  function InsertBySlashes(h: RequestHandler, hs: seq<RequestHandler>): seq<RequestHandler>
  {
    if hs == [] then [h]
    else if Slashes(hs[0]) <= Slashes(h) then [h] + hs
    else [hs[0]] + InsertBySlashes(h, hs[1..])
  }

  /** Inserting adds `h` and loses nothing. */
  lemma {:induction false} InsertPermutes(h: RequestHandler, hs: seq<RequestHandler>)
    ensures multiset(InsertBySlashes(h, hs)) == multiset(hs) + multiset{h}
    decreases |hs|
  {
    if hs != [] && Slashes(hs[0]) > Slashes(h) {
      InsertPermutes(h, hs[1..]);
      assert hs == [hs[0]] + hs[1..];
    }
  }

  /** Inserting into a deepest-first sequence keeps it deepest-first. */
  lemma {:induction false} InsertDeepestFirst(h: RequestHandler, hs: seq<RequestHandler>)
    requires DeepestFirst(hs)
    ensures DeepestFirst(InsertBySlashes(h, hs))
    decreases |hs|
  {
    if hs == [] {
    } else if Slashes(hs[0]) <= Slashes(h) {
      ConsDeepestFirst(h, hs);
    } else {
      var rest := InsertBySlashes(h, hs[1..]);
      InsertDeepestFirst(h, hs[1..]);
      InsertPermutes(h, hs[1..]);
      forall x | x in rest
        ensures Slashes(x) <= Slashes(hs[0])
      {
        assert x in multiset(rest);
        if x != h {
          assert x in multiset(hs[1..]);
        }
      }
      ConsDeepestFirst(hs[0], rest);
    }
  }

  lemma ConsDeepestFirst(x: RequestHandler, s: seq<RequestHandler>)
    requires DeepestFirst(s)
    requires forall y :: y in s ==> Slashes(y) <= Slashes(x)
    ensures DeepestFirst([x] + s)
  {
    var r := [x] + s;
    forall i, j | 0 <= i < j < |r|
      ensures Slashes(r[i]) >= Slashes(r[j])
    {
      assert r[j] == s[j - 1];
      if i > 0 {
        assert r[i] == s[i - 1];
      } else {
        assert r[j] in s;
      }
    }
  }

  lemma WithSlashesCons(x: RequestHandler, s: seq<RequestHandler>, k: nat)
    ensures WithSlashes([x] + s, k) == (if Slashes(x) == k then [x] else []) + WithSlashes(s, k)
  {
    assert ([x] + s)[1..] == s;
  }

  /** Inserting `h` puts it first among the handlers of its own depth. */
  lemma {:induction false} InsertWithSlashes(h: RequestHandler, hs: seq<RequestHandler>, k: nat)
    ensures WithSlashes(InsertBySlashes(h, hs), k) == (if Slashes(h) == k then [h] else []) + WithSlashes(hs, k)
    decreases |hs|
  {
    if hs == [] {
      WithSlashesCons(h, [], k);
    } else if Slashes(hs[0]) <= Slashes(h) {
      WithSlashesCons(h, hs, k);
    } else {
      InsertWithSlashes(h, hs[1..], k);
      InsertPastHead(h, hs, k);
    }
  }

  /** The step of `InsertWithSlashes` where `h` goes behind the deeper `hs[0]`. */
  lemma InsertPastHead(h: RequestHandler, hs: seq<RequestHandler>, k: nat)
    requires hs != [] && Slashes(hs[0]) > Slashes(h)
    requires WithSlashes(InsertBySlashes(h, hs[1..]), k) == (if Slashes(h) == k then [h] else []) + WithSlashes(hs[1..], k)
    ensures WithSlashes(InsertBySlashes(h, hs), k) == (if Slashes(h) == k then [h] else []) + WithSlashes(hs, k)
  {
    var rest := InsertBySlashes(h, hs[1..]);
    assert InsertBySlashes(h, hs) == [hs[0]] + rest;
    WithSlashesCons(hs[0], rest, k);
    WithSlashesCons(hs[0], hs[1..], k);
    assert [hs[0]] + hs[1..] == hs;
  }

  /**
   * `sortHandlersBySlashes`: a stable sort by descending slash count, as the
   * stream's `sorted` with the comparator "more slashes first, equal is 0".
   */
  function SortBySlashes(hs: seq<RequestHandler>): (r: seq<RequestHandler>)
    ensures multiset(r) == multiset(hs)
    ensures DeepestFirst(r)
    ensures forall k :: WithSlashes(r, k) == WithSlashes(hs, k)
  {
    if hs == [] then []
    else
      var rest := SortBySlashes(hs[1..]);
      assert hs == [hs[0]] + hs[1..];
      InsertDeepestFirst(hs[0], rest);
      InsertPermutes(hs[0], rest);
      assert forall k :: WithSlashes(InsertBySlashes(hs[0], rest), k) == WithSlashes(hs, k) by {
        forall k
          ensures WithSlashes(InsertBySlashes(hs[0], rest), k) == WithSlashes(hs, k)
        {
          InsertWithSlashes(hs[0], rest, k);
        }
      }
      InsertBySlashes(hs[0], rest)
  }

  lemma {:induction false} WithSlashesHead(hs: seq<RequestHandler>)
    requires hs != []
    ensures WithSlashes(hs, Slashes(hs[0])) != []
    ensures WithSlashes(hs, Slashes(hs[0]))[0] == hs[0]
  {
  }

  /**
   * A stable sort by descending slash count has only one possible result:
   * two deepest-first orderings that agree on the order within every depth
   * are the same sequence.
   */
  lemma {:induction false} DeepestFirstUnique(a: seq<RequestHandler>, b: seq<RequestHandler>)
    requires DeepestFirst(a) && DeepestFirst(b)
    requires forall k :: WithSlashes(a, k) == WithSlashes(b, k)
    ensures a == b
    decreases |a|
  {
    if a == [] || b == [] {
      if a != b {
        WithSlashesHead(if a == [] then b else a);
        assert false;
      }
    } else {
      var ka, kb := Slashes(a[0]), Slashes(b[0]);
      // Each sequence holds a handler at the other's top depth, so the tops agree.
      assert ka <= kb by {
        WithSlashesHead(a);
        assert a[0] in WithSlashes(b, ka);
        WithSlashesMembers(b, ka, a[0]);
      }
      assert kb <= ka by {
        WithSlashesHead(b);
        assert b[0] in WithSlashes(a, kb);
        WithSlashesMembers(a, kb, b[0]);
      }
      assert a[0] == b[0] by {
        WithSlashesHead(a);
        WithSlashesHead(b);
      }
      forall k
        ensures WithSlashes(a[1..], k) == WithSlashes(b[1..], k)
      {
        var front: seq<RequestHandler> := if ka == k then [a[0]] else [];
        assert WithSlashes(a, k) == front + WithSlashes(a[1..], k) by {
          WithSlashesCons(a[0], a[1..], k);
          assert [a[0]] + a[1..] == a;
        }
        assert WithSlashes(b, k) == front + WithSlashes(b[1..], k) by {
          WithSlashesCons(b[0], b[1..], k);
          assert [b[0]] + b[1..] == b;
        }
        assert WithSlashes(a[1..], k) == WithSlashes(a, k)[|front|..];
        assert WithSlashes(b[1..], k) == WithSlashes(b, k)[|front|..];
      }
      DeepestFirstUnique(a[1..], b[1..]);
      assert a == [a[0]] + a[1..] && b == [b[0]] + b[1..];
    }
  }

  /** Every handler in `WithSlashes(hs, k)` is in `hs` and has `k` slashes. */
  lemma {:induction false} WithSlashesMembers(hs: seq<RequestHandler>, k: nat, x: RequestHandler)
    requires x in WithSlashes(hs, k)
    ensures x in hs && Slashes(x) == k
    ensures DeepestFirst(hs) && hs != [] ==> Slashes(hs[0]) >= k
  {
    if hs != [] && !(Slashes(hs[0]) == k && x == hs[0]) {
      WithSlashesMembers(hs[1..], k, x);
    }
  }

  /**
   * The sort's specification determines its result: any ordering that is
   * deepest-first and keeps the registration order within every depth is
   * the one `sortHandlersBySlashes` produces.
   */
  lemma SortBySlashesIsTheStableSort(hs: seq<RequestHandler>, r: seq<RequestHandler>)
    requires DeepestFirst(r)
    requires forall k :: WithSlashes(r, k) == WithSlashes(hs, k)
    ensures r == SortBySlashes(hs)
  {
    DeepestFirstUnique(r, SortBySlashes(hs));
  }

  // ---------------------------------------------------------------------
  // The action table

  /**
   * The action built for the handler at index `i`. The label uses the id
   * counter AFTER its increment, so it reads `dynamic(i+1)(signature)`.
   */
  function ActionFor(i: nat, h: RequestHandler): Action
  {
    Action(i, MethodName(h.httpMethod), h.path,
           "dynamic" + Decimal.NatToDecimal(i + 1) + "(" + h.actionSignature + ")",
           false)
  }

  /** One action per handler, action `i` built from handler `i`. */
  ghost predicate IsActionTable(handlers: seq<RequestHandler>, actions: seq<Action>)
  {
    && |actions| == |handlers|
    && forall i :: 0 <= i < |actions| ==> actions[i] == ActionFor(i, handlers[i])
  }

  /** The constructor's loop: one action per sorted handler, numbered from 0. */
  method BuildActions(handlers: seq<RequestHandler>) returns (actions: seq<Action>)
    ensures |actions| == |handlers|
    ensures forall i :: 0 <= i < |actions| ==>
      && actions[i].id == i
      && actions[i].httpMethod == MethodName(handlers[i].httpMethod)
      && actions[i].uri == handlers[i].path
      && actions[i].to == "dynamic" + Decimal.NatToDecimal(i + 1) + "(" + handlers[i].actionSignature + ")"
    ensures IsActionTable(handlers, actions)
  {
    actions := [];
    var currentId: nat := 0;
    for k := 0 to |handlers|
      invariant currentId == k == |actions|
      invariant forall i :: 0 <= i < k ==> actions[i] == ActionFor(i, handlers[i])
    {
      var handler := handlers[k];
      var id := currentId;
      currentId := currentId + 1;
      actions := actions + [Action(id, MethodName(handler.httpMethod), handler.path,
                                   "dynamic" + Decimal.NatToDecimal(currentId) + "(" + handler.actionSignature + ")",
                                   false)];
    }
  }

  /** The first result, in table order, that matches; otherwise the shared unmatched value. */
  function FirstMatch(actions: seq<Action>, m: Method, uri: string, matcher: Matcher): MatchResults
  {
    if actions == [] then UnmatchedResults
    else if matcher(actions[0], m, uri).Matched? then matcher(actions[0], m, uri)
    else FirstMatch(actions[1..], m, uri, matcher)
  }

  /**
   * When only action `i` matches, and matching answers results for the
   * action it was asked about, the request resolves to id `i`.
   */
  lemma {:induction false} UniqueMatchResolvesToItsId(
    handlers: seq<RequestHandler>, actions: seq<Action>, m: Method, uri: string, matcher: Matcher, i: nat)
    requires IsActionTable(handlers, actions)
    requires i < |actions|
    requires matcher(actions[i], m, uri).Matched? && matcher(actions[i], m, uri).action == actions[i]
    requires forall j :: 0 <= j < |actions| && j != i ==> !matcher(actions[j], m, uri).Matched?
    ensures FirstMatch(actions, m, uri, matcher).Matched?
    ensures FirstMatch(actions, m, uri, matcher).action.id == i
  {
    FirstMatchIsLowest(actions, m, uri, matcher, i);
  }

  lemma {:induction false} FirstMatchIsLowest(actions: seq<Action>, m: Method, uri: string, matcher: Matcher, i: nat)
    requires i < |actions| && matcher(actions[i], m, uri).Matched?
    requires forall j :: 0 <= j < i ==> !matcher(actions[j], m, uri).Matched?
    ensures FirstMatch(actions, m, uri, matcher) == matcher(actions[i], m, uri)
    decreases i
  {
    if i > 0 {
      FirstMatchIsLowest(actions[1..], m, uri, matcher, i - 1);
    }
  }

  // ---------------------------------------------------------------------
  // Dispatch

  datatype Request = Request(httpMethod: Method, uri: string)

  datatype Context = Context(request: Request)

  /** `Action.MappedParameters`: the matched action's id and the extracted values. */
  datatype MappedParameters = MappedParameters(actionId: int, httpMethod: Method, parameters: seq<Parameter>)

  /** How the pooled handler's invocation ended. */
  datatype Outcome = Completed | Threw

  /** The pooled handler's `handleFor(context, mappedParameters, handler)`. */
  type Invocation = (Context, MappedParameters, RequestHandler) -> Outcome

  /** The `IllegalArgumentException` ("Action mismatch") and what its message carries. */
  datatype DispatchError = ActionMismatch(request: Request, parameters: MappedParameters)

  /**
   * `DynamicResource`: the handlers in sorted order and the action table
   * built from them, both fixed at construction.
   */
  class DynamicResource {
    const name: string
    const handlerPoolSize: int
    const handlers: seq<RequestHandler>
    const actions: seq<Action>

    ghost predicate Valid()
    {
      IsActionTable(handlers, actions)
    }

    constructor (name: string, handlerPoolSize: int, unsortedHandlers: seq<RequestHandler>)
      ensures this.name == name && this.handlerPoolSize == handlerPoolSize
      ensures handlers == SortBySlashes(unsortedHandlers)
      ensures Valid()
    {
      this.name := name;
      this.handlerPoolSize := handlerPoolSize;
      var sorted := SortBySlashes(unsortedHandlers);
      var table := BuildActions(sorted);
      this.handlers := sorted;
      this.actions := table;
    }

    /**
     * `matchWith`: the results of the lowest-indexed action that matches,
     * consulting no later action; the shared unmatched value when none does.
     */
    method MatchWith(m: Method, uri: string, matcher: Matcher) returns (r: MatchResults)
      ensures r == FirstMatch(actions, m, uri, matcher)
      ensures r.Matched? ==> exists i :: 0 <= i < |actions| && r == matcher(actions[i], m, uri)
                                        && forall j :: 0 <= j < i ==> !matcher(actions[j], m, uri).Matched?
      ensures !r.Matched? <==> forall j :: 0 <= j < |actions| ==> !matcher(actions[j], m, uri).Matched?
      ensures !r.Matched? ==> r == UnmatchedResults
      ensures Valid() ==>
        forall i :: 0 <= i < |actions| && matcher(actions[i], m, uri).Matched? && matcher(actions[i], m, uri).action == actions[i]
                    && (forall j :: 0 <= j < |actions| && j != i ==> !matcher(actions[j], m, uri).Matched?)
                    ==> r.Matched? && r.action.id == i && r.action.uri == handlers[i].path
    {
      if Valid() {
        forall i | 0 <= i < |actions| && matcher(actions[i], m, uri).Matched? && matcher(actions[i], m, uri).action == actions[i]
                   && (forall j :: 0 <= j < |actions| && j != i ==> !matcher(actions[j], m, uri).Matched?)
          ensures FirstMatch(actions, m, uri, matcher).Matched?
          ensures FirstMatch(actions, m, uri, matcher).action.id == i
          ensures FirstMatch(actions, m, uri, matcher).action.uri == handlers[i].path
        {
          UniqueMatchResolvesToItsId(handlers, actions, m, uri, matcher, i);
          FirstMatchIsLowest(actions, m, uri, matcher, i);
          assert actions[i] == ActionFor(i, handlers[i]);
        }
      }
      for i := 0 to |actions|
        invariant forall j :: 0 <= j < i ==> !matcher(actions[j], m, uri).Matched?
        invariant FirstMatch(actions, m, uri, matcher) == FirstMatch(actions[i..], m, uri, matcher)
      {
        var matchResults := matcher(actions[i], m, uri);
        if matchResults.Matched? {
          FirstMatchIsLowest(actions, m, uri, matcher, i);
          return matchResults;
        }
        assert actions[i..][1..] == actions[i + 1..];
      }
      return UnmatchedResults;
    }

    /**
     * `dispatchToHandlerWith`: invokes the handler at the action id, once;
     * an id outside the handler list invokes nothing. An out-of-range id or
     * a failing invocation ends in the action-mismatch error.
     */
    method DispatchToHandlerWith(context: Context, mappedParameters: MappedParameters, invoke: Invocation)
      returns (r: DispatchResult, invoked: Option<RequestHandler>)
      ensures invoked.Some? <==> 0 <= mappedParameters.actionId < |handlers|
      ensures invoked.Some? ==> invoked.value == handlers[mappedParameters.actionId]
      ensures r.Failure? <==> invoked.None? || invoke(context, mappedParameters, invoked.value) == Threw
      ensures r.Failure? ==> r.error == ActionMismatch(context.request, mappedParameters)
    {
      var id := mappedParameters.actionId;
      if !(0 <= id < |handlers|) {
        return Failure(ActionMismatch(context.request, mappedParameters)), None;
      }
      var handler := handlers[id];
      invoked := Some(handler);
      var outcome := invoke(context, mappedParameters, handler);
      if outcome == Threw {
        r := Failure(ActionMismatch(context.request, mappedParameters));
      } else {
        r := Success(());
      }
    }
  }

  type DispatchResult = Result<(), DispatchError>
}
