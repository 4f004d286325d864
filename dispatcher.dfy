/**
 * The message handler installed on every connection (src/extension.ts:79-167):
 * one parsed envelope in, at most one reply out. The transport, the host's
 * notification call and `eval` are abstracted: the notification is returned
 * as a value, and the outcome of evaluating `args[0]` is a parameter.
 */
module Dispatcher {
  import opened Wrappers
  import opened JsValues
  import opened Inspector

  /** The result of `JSON.parse` and the destructuring of `{command, args}`, or the error they threw. */
  datatype Envelope = Malformed(error: string) | Request(command: string, args: seq<string>)

  /** The JSON object sent back on the socket. */
  datatype Reply =
    | Ok
    | EvalOk(result: Value)
    | QueryOk(members: seq<string>)
    | InspectOk(inspected: map<string, Member>)
    | Error(message: string)
  {
    /** The `status` field. */
    function Status(): (s: string)
      ensures s == "ERROR" <==> this.Error?
    {
      if this.Error? then "ERROR" else "OK"
    }
  }

  /** A call of `showInformationMessage(message, ...items)`. */
  datatype Notice = Notice(message: string, items: seq<string>)

  /** What handling one message does: an optional notification and an optional reply. */
  datatype Outcome = Outcome(notice: Option<Notice>, reply: Option<Reply>)

  const UnknownCommand: string := "Unknown command"

  /** `args[0]` as a property key: a missing first argument reads as `undefined`, whose key is "undefined". */
  function QueryName(args: seq<string>): (name: string)
    ensures |args| == 0 ==> name == "undefined"
    ensures |args| > 0 ==> name == args[0]
  {
    if |args| > 0 then args[0] else "undefined"
  }

  /** The `queryApi` branch: nothing is sent when the global is falsy. */
  function Query(root: Value, args: seq<string>): (r: Option<Reply>)
    ensures r.None? <==> Get(root, QueryName(args)).Success? && !Truthy(Get(root, QueryName(args)).value)
    ensures r.Some? ==> r.value.QueryOk? || r.value.Error?
    ensures Get(root, QueryName(args)).Failure? ==> r == Some(Error(Get(root, QueryName(args)).error))
    ensures r.Some? && r.value.Error? ==> Get(root, QueryName(args)).Failure?
    ensures r.Some? && r.value.QueryOk? ==>
      Get(root, QueryName(args)).Success? && OwnKeys(Get(root, QueryName(args)).value) == Success(r.value.members)
  {
    match Get(root, QueryName(args))
    case Failure(e) => Some(Error(e))
    case Success(v) =>
      if !Truthy(v) then None
      else match OwnKeys(v)
        case Success(keys) => Some(QueryOk(keys))
        case Failure(e) => Some(Error(e))
  }

  /** The `inspect` branch, as `Inspector.InspectSpec` computes it. */
  function InspectReply(root: Value, args: seq<string>): (r: Reply)
    ensures r.InspectOk? || r.Error?
    ensures r.Error? <==> InspectSpec(root, args).Failure?
    ensures r.Error? ==> r.message == InspectSpec(root, args).error
    ensures r.InspectOk? ==> r.inspected == InspectSpec(root, args).value
  {
    match InspectSpec(root, args)
    case Success(m) => InspectOk(m)
    case Failure(e) => Error(e)
  }

  /**
   * The whole handler: the four named commands, the unknown-command
   * branch, and the `catch` that turns any exception into an error reply.
   * `root` stands for `globalThis`; `evaluated` for the value or the
   * exception of `eval(args[0])`.
   */
  function Dispatch(env: Envelope, root: Value, evaluated: Result<Value, string>): (o: Outcome)
    ensures o.notice.Some? <==> env.Request? && env.command == "showMessage"
    ensures o.reply.None? <==> env.Request? && env.command == "queryApi" && Query(root, env.args).None?
    ensures env.Malformed? ==> o.reply == Some(Error(env.error))
  {
    match env
    case Malformed(e) => Outcome(None, Some(Error(e)))
    case Request(command, args) =>
      if command == "showMessage" then
        Outcome(Some(Notice(command, args)), Some(Ok))
      else if command == "eval" then
        match evaluated
        case Success(v) => Outcome(None, Some(EvalOk(v)))
        case Failure(e) => Outcome(None, Some(Error(e)))
      else if command == "queryApi" then
        Outcome(None, Query(root, args))
      else if command == "inspect" then
        Outcome(None, Some(InspectReply(root, args)))
      else
        Outcome(None, Some(Error(UnknownCommand)))
  }

  /** The handler as it runs: the `inspect` branch goes through the two loops of `Inspector.Inspect`. */
  method Handle(env: Envelope, root: Value, evaluated: Result<Value, string>) returns (o: Outcome)
    ensures o == Dispatch(env, root, evaluated)
  {
    if env.Request? && env.command == "inspect" {
      var result := Inspect(root, env.args);
      var reply := if result.Success? then InspectOk(result.value) else Error(result.error);
      return Outcome(None, Some(reply));
    }
    return Dispatch(env, root, evaluated);
  }

  /**
   * Anything but the four named commands gets the fixed error and nothing
   * else, whatever the arguments, the globals or `eval` would have given.
   */
  lemma UnknownCommandReply(command: string, args: seq<string>, root: Value, evaluated: Result<Value, string>,
                            args': seq<string>, root': Value, evaluated': Result<Value, string>)
    requires command !in {"showMessage", "eval", "queryApi", "inspect"}
    ensures Dispatch(Request(command, args), root, evaluated) == Outcome(None, Some(Error(UnknownCommand)))
    ensures Dispatch(Request(command, args), root, evaluated) == Dispatch(Request(command, args'), root', evaluated')
    ensures Dispatch(Request(command, args), root, evaluated).reply.value.Status() == "ERROR"
  {
  }

  /**
   * `showMessage` shows the command name itself, with the arguments as
   * the notification's items: the first argument is not the message.
   */
  lemma ShowMessageShowsCommandName(args: seq<string>, root: Value, evaluated: Result<Value, string>)
    ensures Dispatch(Request("showMessage", args), root, evaluated) == Outcome(Some(Notice("showMessage", args)), Some(Ok))
    ensures |args| > 0 && args[0] != "showMessage" ==>
      Dispatch(Request("showMessage", args), root, evaluated).notice.value.message != args[0]
  {
  }

  /** A global that is absent from the root object leaves the client without any reply. */
  lemma QueryMissingGlobalNoReply(props: Props, args: seq<string>, evaluated: Result<Value, string>)
    requires QueryName(args) !in props.slots
    ensures Dispatch(Request("queryApi", args), Obj(props), evaluated).reply.None?
  {
  }

  /** A global holding an object or a function is answered with its own keys, in order. */
  lemma QueryObjectKeys(props: Props, args: seq<string>, evaluated: Result<Value, string>)
    requires QueryName(args) in props.slots && props.slots[QueryName(args)].Data?
    requires props.slots[QueryName(args)].value.Obj? || props.slots[QueryName(args)].value.Func?
    ensures Dispatch(Request("queryApi", args), Obj(props), evaluated).reply ==
      Some(QueryOk(props.slots[QueryName(args)].value.own.keys))
  {
  }

  /**
   * A truthy string global is answered with its indices, "0" up to its
   * length minus one, each of which reads back one character.
   */
  lemma QueryStringIndices(props: Props, args: seq<string>, evaluated: Result<Value, string>, s: string)
    requires QueryName(args) in props.slots && props.slots[QueryName(args)] == Data(Str(s))
    requires s != []
    ensures var reply := Dispatch(Request("queryApi", args), Obj(props), evaluated).reply;
      && reply.Some? && reply.value.QueryOk?
      && |reply.value.members| == |s|
      && forall i :: 0 <= i < |s| ==>
        reply.value.members[i] == Text.NatToString(i) && Get(Str(s), reply.value.members[i]) == Success(Str([s[i]]))
  {
    forall i | 0 <= i < |s|
      ensures OwnKeys(Str(s)).value[i] == Text.NatToString(i) && Get(Str(s), Text.NatToString(i)) == Success(Str([s[i]]))
    {
      StringKeysReadBack(s, i);
    }
  }

  /** A truthy boolean or number global has no own keys: the reply lists none. */
  lemma QueryPrimitiveNoKeys(props: Props, args: seq<string>, evaluated: Result<Value, string>)
    requires QueryName(args) in props.slots && props.slots[QueryName(args)].Data?
    requires var v := props.slots[QueryName(args)].value; (v.Bool? && v.b) || (v.Num? && v.n != 0)
    ensures Dispatch(Request("queryApi", args), Obj(props), evaluated).reply == Some(QueryOk([]))
  {
  }

  /**
   * The `catch` at the handler's boundary: an exception from `eval` or from
   * reading the queried global becomes an error reply carrying its text.
   */
  lemma ExceptionsBecomeErrors(args: seq<string>, props: Props, e: string, v: Value)
    ensures Dispatch(Request("eval", args), Obj(props), Failure(e)).reply == Some(Error(e))
    ensures Dispatch(Request("eval", args), Obj(props), Success(v)).reply == Some(EvalOk(v))
    ensures QueryName(args) in props.slots && props.slots[QueryName(args)] == Throwing(e) ==>
      Dispatch(Request("queryApi", args), Obj(props), Success(v)).reply == Some(Error(e))
  {
  }

  /**
   * A path segment that reads as undefined ends `inspect` with the
   * not-found error naming that segment and the whole path.
   */
  lemma InspectNotFoundReply(root: Value, args: seq<string>, before: seq<string>, k: string, after: seq<string>, w: Value,
                             evaluated: Result<Value, string>)
    requires Segments(PathArg(args)) == before + [k] + after
    requires Walk(root, before) == Found(w) && Get(w, k) == Success(Undefined)
    ensures Dispatch(Request("inspect", args), root, evaluated).reply == Some(Error(NotFoundMessage(k, PathArg(args))))
  {
    InspectNotFound(root, args, before, k, after, w);
  }

  /**
   * A null value part-way along the path: reading the next segment from
   * it throws, and the TypeError naming that segment is the reply.
   */
  lemma InspectNullIntermediate(root: Value, args: seq<string>, before: seq<string>, k: string, after: seq<string>,
                                evaluated: Result<Value, string>)
    requires Segments(PathArg(args)) == before + [k] + after
    requires Walk(root, before) == Found(Null)
    ensures Dispatch(Request("inspect", args), root, evaluated).reply == Some(Error(ReadError("null", k)))
  {
    InspectThrownRead(root, args, before, k, after, Null);
  }

  /** A getter that throws while the path is walked: its error is the reply. */
  lemma InspectThrowingGetter(root: Value, args: seq<string>, before: seq<string>, k: string, after: seq<string>,
                              w: Value, e: string, evaluated: Result<Value, string>)
    requires Segments(PathArg(args)) == before + [k] + after
    requires Walk(root, before) == Found(w) && (w.Obj? || w.Func?)
    requires k in w.own.slots && w.own.slots[k] == Throwing(e)
    ensures Dispatch(Request("inspect", args), root, evaluated).reply == Some(Error(e))
  {
    assert Get(w, k) == Failure(e) by {
      assert ReadSlot(w.own, k) == Failure(e);
    }
    InspectThrownRead(root, args, before, k, after, w);
  }

  /** A path that resolves to null: `Object.keys(null)` throws, and its TypeError is the reply. */
  lemma InspectResolvesToNull(root: Value, args: seq<string>, evaluated: Result<Value, string>)
    requires Walk(root, Segments(PathArg(args))) == Found(Null)
    ensures Dispatch(Request("inspect", args), root, evaluated).reply == Some(Error(NoObjectError))
  {
  }

  /** One null member of the inspected object turns the whole `inspect` into an error reply. */
  lemma InspectNullMemberReply(root: Value, args: seq<string>, obj: Value, i: nat, evaluated: Result<Value, string>)
    requires Walk(root, Segments(PathArg(args))) == Found(obj)
    requires OwnKeys(obj).Success? && i < |OwnKeys(obj).value|
    requires ReadOrUndefined(obj, OwnKeys(obj).value[i]).Null?
    ensures Dispatch(Request("inspect", args), root, evaluated).reply == Some(Error(NullToStringError))
  {
    InspectNullMember(root, args, obj, i);
  }

  /**
   * A successful `inspect` answers with one entry per own key of the
   * resolved object, each as `Inspector.MemberOf` describes it.
   */
  lemma InspectOkReply(root: Value, args: seq<string>, obj: Value, evaluated: Result<Value, string>)
    requires Walk(root, Segments(PathArg(args))) == Found(obj)
    requires OwnKeys(obj).Success?
    requires forall i :: 0 <= i < |OwnKeys(obj).value| ==> !ReadOrUndefined(obj, OwnKeys(obj).value[i]).Null?
    ensures Dispatch(Request("inspect", args), root, evaluated).reply.Some?
    ensures Dispatch(Request("inspect", args), root, evaluated).reply.value.InspectOk?
    ensures var m := Dispatch(Request("inspect", args), root, evaluated).reply.value.inspected;
      m.Keys == (set k | k in OwnKeys(obj).value) && forall k :: k in m ==> MemberOf(obj, k) == Success(m[k])
  {
    var keys := OwnKeys(obj).value;
    assert InspectSpec(root, args) == Members(obj, keys);
    MembersSpec(obj, keys);
  }
}
