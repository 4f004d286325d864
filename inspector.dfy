/**
 * The `inspect` command (src/extension.ts:109-151): walk a dotted path
 * from the root namespace, then describe every own enumerable member of
 * the object reached. The handler is a method with the source's two
 * loops; `InspectSpec` and the functions before it say what it computes.
 */
module Inspector {
  import opened Wrappers
  import opened Text
  import opened JsValues
  import opened Params

  /** One entry of the reply's `members` dictionary. `params` is present only for objects and functions. */
  datatype Member = Member(name: string, typ: TypeTag, params: Option<seq<string>>)

  /** Where a path walk ends: at a value, at a segment that read as undefined, or at a thrown error. */
  datatype Walked = Found(value: Value) | Missing(segment: string) | Threw(error: string)

  /** The path named by the request: `args[0]`, or "" when there are no arguments. */
  function PathArg(args: seq<string>): (name: string)
    ensures name == "" <==> |args| == 0 || args[0] == ""
    ensures name != "" ==> name == args[0]
  {
    if |args| > 0 then args[0] else ""
  }

  /** The segments the walk visits: `path.split(".")` without the empty pieces. */
  function Segments(path: string): (segs: seq<string>)
    ensures forall i :: 0 <= i < |segs| ==> segs[i] != [] && '.' !in segs[i]
  {
    var pieces := Split(path, '.');
    var segs := DropEmpty(pieces);
    forall i | 0 <= i < |segs| ensures segs[i] != [] && '.' !in segs[i] {
      assert segs[i] in segs;
      assert segs[i] in pieces;
      var j :| 0 <= j < |pieces| && pieces[j] == segs[i];
      assert '.' !in pieces[j];
    }
    segs
  }

  /** Splitting text that contains a separator is splitting the two sides and concatenating. */
  lemma {:induction false} SplitAround(a: string, b: string, sep: char)
    ensures Split(a + [sep] + b, sep) == Split(a, sep) + Split(b, sep)
    decreases |a|
  {
    if a == [] {
      assert a + [sep] + b == [sep] + b;
      assert ([sep] + b)[1..] == b;
    } else {
      assert (a + [sep] + b)[1..] == a[1..] + [sep] + b;
      SplitAround(a[1..], b, sep);
    }
  }

  /** A dot splits a path into two paths whose segments are visited one after the other. */
  lemma SegmentsAroundDot(a: string, b: string)
    ensures Segments(a + "." + b) == Segments(a) + Segments(b)
  {
    SplitAround(a, b, '.');
    DropEmptyAppend(Split(a, '.'), Split(b, '.'));
  }

  /** The empty path has no segments: it names the root. */
  lemma SegmentsOfEmpty()
    ensures Segments("") == []
  {
    assert Split("", '.') == [[]];
  }

  /** Empty segments are skipped: leading, trailing and doubled dots change nothing, and "" names the root. */
  lemma EmptySegmentsSkipped(a: string, b: string)
    ensures Segments("") == []
    ensures Segments(a + ".") == Segments(a)
    ensures Segments("." + b) == Segments(b)
    ensures Segments(a + ".." + b) == Segments(a + "." + b)
  {
    SegmentsOfEmpty();
    TrailingDot(a);
    LeadingDot(b);
    DoubledDot(a, b);
  }

  lemma TrailingDot(a: string)
    ensures Segments(a + ".") == Segments(a)
  {
    SegmentsOfEmpty();
    SegmentsAroundDot(a, "");
    assert a + "." + "" == a + ".";
  }

  lemma LeadingDot(b: string)
    ensures Segments("." + b) == Segments(b)
  {
    SegmentsOfEmpty();
    SegmentsAroundDot("", b);
    assert "" + "." + b == "." + b;
  }

  lemma DoubledDot(a: string, b: string)
    ensures Segments(a + ".." + b) == Segments(a + "." + b)
  {
    var a' := a + ".";
    assert a' + "." + b == a + ".." + b by {
      DotDot(a, b);
    }
    SegmentsAroundDot(a', b);
    TrailingDot(a);
    SegmentsAroundDot(a, b);
  }

  lemma DotDot(a: string, b: string)
    ensures a + "." + "." + b == a + ".." + b
  {
  }

  /** `obj = obj[k]` for each segment, stopping at the first undefined value or thrown error. */
  function Walk(v: Value, segs: seq<string>): (w: Walked)
    ensures segs == [] ==> w == Found(v)
    ensures w.Missing? ==> w.segment in segs
    ensures w.Threw? ==> segs != []
    decreases |segs|
  {
    if segs == [] then Found(v)
    else match Get(v, segs[0])
      case Failure(e) => Threw(e)
      case Success(w) => if w.Undefined? then Missing(segs[0]) else Walk(w, segs[1..])
  }

  /** Walking two paths in a row: the second starts where the first ended, if it ended at a value. */
  lemma {:induction false} WalkAppend(v: Value, a: seq<string>, b: seq<string>)
    ensures Walk(v, a + b) == match Walk(v, a) case Found(w) => Walk(w, b) case other => other
    decreases |a|
  {
    if a == [] {
      assert a + b == b;
    } else {
      assert (a + b)[0] == a[0] && (a + b)[1..] == a[1..] + b;
      match Get(v, a[0])
      case Failure(_) =>
      case Success(w) =>
        if !w.Undefined? {
          WalkAppend(w, a[1..], b);
        }
    }
  }

  /**
   * The walk stops at the first undefined value: once a prefix reaches an
   * object whose member `k` is undefined, what follows `k` is never read.
   */
  lemma WalkStopsAtUndefined(v: Value, before: seq<string>, k: string, after: seq<string>, w: Value)
    requires Walk(v, before) == Found(w) && Get(w, k) == Success(Undefined)
    ensures Walk(v, before + [k] + after) == Missing(k)
  {
    WalkAppend(v, before, [k] + after);
    assert before + [k] + after == before + ([k] + after);
  }

  /** A read that throws ends the walk with its error; what follows `k` is never read. */
  lemma WalkStopsAtThrow(v: Value, before: seq<string>, k: string, after: seq<string>, w: Value)
    requires Walk(v, before) == Found(w) && Get(w, k).Failure?
    ensures Walk(v, before + [k] + after) == Threw(Get(w, k).error)
  {
    WalkAppend(v, before, [k] + after);
    assert before + [k] + after == before + ([k] + after);
  }

  /** Every value a successful walk passes through, after the root, is defined. */
  lemma {:induction false} WalkFoundDefined(v: Value, segs: seq<string>, i: nat)
    requires Walk(v, segs).Found? && i <= |segs|
    ensures Walk(v, segs[..i]).Found?
    ensures i > 0 ==> !Walk(v, segs[..i]).value.Undefined?
    ensures Walk(v, segs[..i]).Found? && Walk(Walk(v, segs[..i]).value, segs[i..]) == Walk(v, segs)
  {
    WalkAppend(v, segs[..i], segs[i..]);
    assert segs[..i] + segs[i..] == segs;
    if i > 0 {
      WalkNonEmptyDefined(v, segs[..i]);
    }
  }

  /** A walk over at least one segment that ends at a value ends at a defined one. */
  lemma {:induction false} WalkNonEmptyDefined(v: Value, segs: seq<string>)
    requires segs != [] && Walk(v, segs).Found?
    ensures !Walk(v, segs).value.Undefined?
    decreases |segs|
  {
    var w := Get(v, segs[0]).value;
    if |segs| > 1 {
      WalkNonEmptyDefined(w, segs[1..]);
    }
  }

  /** The message of the `'k' not found in 'name'.` error. */
  function NotFoundMessage(k: string, name: string): (msg: string)
    ensures |msg| == |k| + |name| + 19
    ensures msg[1..|k| + 1] == k && msg[|msg| - |name| - 2..|msg| - 2] == name
  {
    "'" + k + "' not found in '" + name + "'."
  }

  /** `obj[memberName]` inside `try {} catch {}`: a read that throws leaves `memberObj` undefined. */
  function ReadOrUndefined(obj: Value, k: string): (v: Value)
    ensures v.Undefined? <==> Get(obj, k).Failure? || Get(obj, k) == Success(Undefined)
    ensures !v.Undefined? ==> Get(obj, k) == Success(v)
  {
    match Get(obj, k)
    case Success(w) => w
    case Failure(_) => Undefined
  }

  /** The description of one member; `getFunctionParams` may throw, which fails the whole request. */
  function MemberOf(obj: Value, k: string): (r: Result<Member, string>)
    ensures r.Failure? <==> ReadOrUndefined(obj, k).Null?
    ensures r.Failure? ==> r.error == NullToStringError
    ensures r.Success? ==> r.value.name == k && r.value.typ == TypeOf(ReadOrUndefined(obj, k))
    ensures r.Success? ==> (r.value.params.Some? <==> r.value.typ in {ObjectType, FunctionType})
  {
    var memberObj := ReadOrUndefined(obj, k);
    var t := TypeOf(memberObj);
    if t == ObjectType || t == FunctionType then
      match GetFunctionParams(memberObj)
      case Failure(e) => Failure(e)
      case Success(ps) => Success(Member(k, t, Some(ps)))
    else
      Success(Member(k, t, None))
  }

  /** Plain objects get an empty parameter list; functions get the names read off their source. */
  lemma MemberOfParams(obj: Value, k: string)
    ensures ReadOrUndefined(obj, k).Obj? ==> MemberOf(obj, k) == Success(Member(k, ObjectType, Some([])))
    ensures ReadOrUndefined(obj, k).Func? ==>
      MemberOf(obj, k) == Success(Member(k, FunctionType, Some(ParamsFromSource(ReadOrUndefined(obj, k).source))))
  {
  }

  /** The `members` dictionary after the loop over `keys`, or the first error. */
  function Members(obj: Value, keys: seq<string>): (r: Result<map<string, Member>, string>)
    ensures keys == [] ==> r == Success(map[])
    ensures r.Failure? ==> r.error == NullToStringError
    decreases |keys|
  {
    if keys == [] then Success(map[])
    else
      var init, k := keys[..|keys| - 1], keys[|keys| - 1];
      assert keys == init + [k];
      match Members(obj, init)
      case Failure(e) => Failure(e)
      case Success(m) =>
        match MemberOf(obj, k)
        case Failure(e) => Failure(e)
        case Success(d) => Success(m[k := d])
  }

  /**
   * The dictionary is built only when every member can be described;
   * otherwise the request fails with the TypeError of `null.toString()`.
   * Its keys are exactly `keys`, and each entry describes the member
   * under its key.
   */
  lemma {:induction false} MembersSpec(obj: Value, keys: seq<string>)
    ensures Members(obj, keys).Success? <==> forall i :: 0 <= i < |keys| ==> !ReadOrUndefined(obj, keys[i]).Null?
    ensures Members(obj, keys).Failure? ==> Members(obj, keys).error == NullToStringError
    ensures Members(obj, keys).Success? ==> Members(obj, keys).value.Keys == set k | k in keys
    ensures Members(obj, keys).Success? ==>
      forall k :: k in Members(obj, keys).value ==> MemberOf(obj, k) == Success(Members(obj, keys).value[k])
    decreases |keys|
  {
    if keys != [] {
      var init, k := keys[..|keys| - 1], keys[|keys| - 1];
      assert keys == init + [k];
      MembersSpec(obj, init);
      MembersSnoc(obj, init, k);
      if Members(obj, init).Failure? {
        var i :| 0 <= i < |init| && ReadOrUndefined(obj, init[i]).Null?;
        assert keys[i] == init[i];
      } else if MemberOf(obj, k).Success? {
        MembersSnocKeys(init, k);
      }
    }
  }

  /** `Members` on a list with one more key at the end. */
  lemma MembersSnoc(obj: Value, init: seq<string>, k: string)
    ensures Members(obj, init + [k]) ==
      match Members(obj, init)
      case Failure(e) => Failure(e)
      case Success(m) =>
        match MemberOf(obj, k)
        case Failure(e) => Failure(e)
        case Success(d) => Success(m[k := d])
  {
    var keys := init + [k];
    assert keys[..|keys| - 1] == init && keys[|keys| - 1] == k;
  }

  lemma MembersSnocKeys(init: seq<string>, k: string)
    ensures (set x | x in init + [k]) == (set x | x in init) + {k}
  {
  }

  /** One more key: the dictionary so far, extended by that key's description. */
  lemma MembersStep(obj: Value, keys: seq<string>, j: nat, m: map<string, Member>)
    requires j < |keys| && Members(obj, keys[..j]) == Success(m)
    ensures Members(obj, keys[..j + 1]) ==
      match MemberOf(obj, keys[j])
      case Failure(e) => Failure(e)
      case Success(d) => Success(m[keys[j] := d])
  {
    assert keys[..j + 1][..j] == keys[..j];
  }

  /** What the `inspect` handler replies, including the errors its exceptions turn into. */
  function InspectSpec(root: Value, args: seq<string>): (r: Result<map<string, Member>, string>)
    ensures Walk(root, Segments(PathArg(args))).Missing? ==>
      r == Failure(NotFoundMessage(Walk(root, Segments(PathArg(args))).segment, PathArg(args)))
    ensures Walk(root, Segments(PathArg(args))).Threw? ==> r == Failure(Walk(root, Segments(PathArg(args))).error)
    ensures r.Success? ==> Walk(root, Segments(PathArg(args))).Found?
    ensures Walk(root, Segments(PathArg(args))) == Found(Null) ==> r == Failure(NoObjectError)
  {
    var name := PathArg(args);
    match Walk(root, Segments(name))
    case Missing(k) => Failure(NotFoundMessage(k, name))
    case Threw(e) => Failure(e)
    case Found(obj) =>
      match OwnKeys(obj)
      case Failure(e) => Failure(e)
      case Success(keys) => Members(obj, keys)
  }

  /** Walking the non-empty pieces of a longer prefix of `path.split(".")`. */
  lemma WalkPiecesStep(root: Value, pieces: seq<string>, i: nat, obj: Value)
    requires i < |pieces| && Walk(root, DropEmpty(pieces[..i])) == Found(obj)
    ensures pieces[i] == [] ==> Walk(root, DropEmpty(pieces[..i + 1])) == Found(obj)
    ensures pieces[i] != [] ==> Walk(root, DropEmpty(pieces[..i + 1])) == Walk(obj, [pieces[i]])
  {
    assert pieces[..i + 1] == pieces[..i] + [pieces[i]];
    DropEmptyAppend(pieces[..i], [pieces[i]]);
    assert DropEmpty([pieces[i]]) == if pieces[i] == [] then [] else [pieces[i]];
    WalkAppend(root, DropEmpty(pieces[..i]), DropEmpty([pieces[i]]));
    if pieces[i] == [] {
      assert DropEmpty(pieces[..i]) + [] == DropEmpty(pieces[..i]);
    }
  }

  /** One segment: the read, stopping at an exception or at undefined. */
  lemma WalkOne(v: Value, k: string)
    ensures Walk(v, [k]) == match Get(v, k)
      case Failure(e) => Threw(e)
      case Success(w) => if w.Undefined? then Missing(k) else Found(w)
  {
    assert [k][1..] == [];
  }

  /** A walk that stopped on a prefix of the pieces stops there for all of them. */
  lemma WalkPiecesStop(root: Value, pieces: seq<string>, i: nat)
    requires i <= |pieces| && !Walk(root, DropEmpty(pieces[..i])).Found?
    ensures Walk(root, DropEmpty(pieces)) == Walk(root, DropEmpty(pieces[..i]))
  {
    assert pieces == pieces[..i] + pieces[i..];
    DropEmptyAppend(pieces[..i], pieces[i..]);
    WalkAppend(root, DropEmpty(pieces[..i]), DropEmpty(pieces[i..]));
  }

  /**
   * The `inspect` branch of the message handler, with the top-level catch
   * folded in: `Failure` carries the `message` of the ERROR reply.
   */
  method Inspect(root: Value, args: seq<string>) returns (result: Result<map<string, Member>, string>)
    ensures result == InspectSpec(root, args)
  {
    var name := "";
    if |args| > 0 {
      name := args[0];
    }
    var walked := Resolve(root, name);
    match walked
    case Missing(k) =>
      return Failure(NotFoundMessage(k, name));
    case Threw(e) =>
      return Failure(e);
    case Found(obj) =>
      var keys := OwnKeys(obj);
      if keys.Failure? {
        return Failure(keys.error);
      }
      result := DescribeMembers(obj, keys.value);
  }

  /** The first loop of the handler: `for (const k of name.split("."))`, skipping empty pieces. */
  method Resolve(root: Value, name: string) returns (walked: Walked)
    ensures walked == Walk(root, Segments(name))
  {
    var obj := root;
    var pieces := Split(name, '.');
    var i := 0;
    while i < |pieces|
      invariant 0 <= i <= |pieces|
      invariant Walk(root, DropEmpty(pieces[..i])) == Found(obj)
    {
      var k := pieces[i];
      WalkPiecesStep(root, pieces, i, obj);
      WalkOne(obj, k);
      if k != "" {
        var read := Get(obj, k);
        if read.Failure? {
          WalkPiecesStop(root, pieces, i + 1);
          return Threw(read.error);
        }
        obj := read.value;
        if obj.Undefined? {
          WalkPiecesStop(root, pieces, i + 1);
          return Missing(k);
        }
      }
      i := i + 1;
    }
    assert pieces[..i] == pieces;
    return Found(obj);
  }

  /** The second loop of the handler: fill `members` key by key, in `Object.keys` order. */
  method DescribeMembers(obj: Value, keys: seq<string>) returns (result: Result<map<string, Member>, string>)
    ensures result == Members(obj, keys)
  {
    var members: map<string, Member> := map[];
    var j := 0;
    while j < |keys|
      invariant 0 <= j <= |keys|
      invariant Members(obj, keys[..j]) == Success(members)
    {
      var entry := DescribeMember(obj, keys[j]);
      if entry.Failure? {
        MembersFailAt(obj, keys, j, members, entry.error);
        return Failure(entry.error);
      }
      MembersExtend(obj, keys, j, members, entry.value);
      members := members[keys[j] := entry.value];
      j := j + 1;
    }
    assert keys[..j] == keys;
    return Success(members);
  }

  /**
   * The body of the second loop for one key: read the member, swallowing a
   * throwing read, record its `typeof`, and add `params` for objects and
   * functions, where `getFunctionParams` may throw.
   */
  method DescribeMember(obj: Value, memberName: string) returns (entry: Result<Member, string>)
    ensures entry == MemberOf(obj, memberName)
  {
    var memberObj := Undefined;
    var read := Get(obj, memberName);
    if read.Success? {
      memberObj := read.value;
    }
    assert memberObj == ReadOrUndefined(obj, memberName);
    MemberOfUnfolded(obj, memberName, memberObj);
    var typ := TypeOf(memberObj);
    var params := None;
    if typ == ObjectType || typ == FunctionType {
      var ps := GetFunctionParams(memberObj);
      if ps.Failure? {
        return Failure(ps.error);
      }
      params := Some(ps.value);
    }
    return Success(Member(memberName, typ, params));
  }

  /** `MemberOf` spelled out from the value the handler read. */
  lemma MemberOfUnfolded(obj: Value, k: string, memberObj: Value)
    requires memberObj == ReadOrUndefined(obj, k)
    ensures TypeOf(memberObj) !in {ObjectType, FunctionType} ==> MemberOf(obj, k) == Success(Member(k, TypeOf(memberObj), None))
    ensures TypeOf(memberObj) in {ObjectType, FunctionType} ==>
      MemberOf(obj, k) == match GetFunctionParams(memberObj)
        case Failure(e) => Failure(e)
        case Success(ps) => Success(Member(k, TypeOf(memberObj), Some(ps)))
  {
  }

  /** The loop's step when the key's description succeeds. */
  lemma MembersExtend(obj: Value, keys: seq<string>, j: nat, m: map<string, Member>, entry: Member)
    requires j < |keys| && Members(obj, keys[..j]) == Success(m)
    requires MemberOf(obj, keys[j]) == Success(entry)
    ensures Members(obj, keys[..j + 1]) == Success(m[keys[j] := entry])
  {
    MembersStep(obj, keys, j, m);
  }

  /** The loop's early exit: describing the key fails, and so does the whole dictionary. */
  lemma MembersFailAt(obj: Value, keys: seq<string>, j: nat, m: map<string, Member>, e: string)
    requires j < |keys| && Members(obj, keys[..j]) == Success(m)
    requires MemberOf(obj, keys[j]) == Failure(e)
    ensures Members(obj, keys) == Failure(e)
  {
    MembersStep(obj, keys, j, m);
    MembersPrefixFailure(obj, keys, j + 1);
  }

  /** A failure on a prefix of the keys is the failure of the whole loop. */
  lemma MembersPrefixFailure(obj: Value, keys: seq<string>, n: nat)
    requires n <= |keys| && Members(obj, keys[..n]).Failure?
    ensures Members(obj, keys) == Members(obj, keys[..n])
  {
    MembersSpec(obj, keys[..n]);
    MembersSpec(obj, keys);
    var i :| 0 <= i < n && ReadOrUndefined(obj, keys[..n][i]).Null?;
    assert keys[..n][i] == keys[i];
  }

  /**
   * An unresolved segment: when the segments before `k` reach an object
   * whose `k` is undefined, the reply is the not-found error naming `k`
   * and the whole path, whatever segments follow.
   */
  lemma InspectNotFound(root: Value, args: seq<string>, before: seq<string>, k: string, after: seq<string>, w: Value)
    requires Segments(PathArg(args)) == before + [k] + after
    requires Walk(root, before) == Found(w) && Get(w, k) == Success(Undefined)
    ensures InspectSpec(root, args) == Failure(NotFoundMessage(k, PathArg(args)))
  {
    WalkStopsAtUndefined(root, before, k, after, w);
  }

  /**
   * A read that throws part-way along the path: a null or undefined value
   * before the last segment, or a getter that throws. The error is the
   * reply, whatever segments follow.
   */
  lemma InspectThrownRead(root: Value, args: seq<string>, before: seq<string>, k: string, after: seq<string>, w: Value)
    requires Segments(PathArg(args)) == before + [k] + after
    requires Walk(root, before) == Found(w) && Get(w, k).Failure?
    ensures InspectSpec(root, args) == Failure(Get(w, k).error)
  {
    WalkStopsAtThrow(root, before, k, after, w);
  }

  /**
   * A resolved path: the reply lists exactly the object's own keys, each
   * under its own name with its `typeof`, and with parameters exactly for
   * objects and functions; it fails only when some member is null.
   */
  lemma InspectFound(root: Value, args: seq<string>, obj: Value, keys: seq<string>)
    requires Walk(root, Segments(PathArg(args))) == Found(obj) && OwnKeys(obj) == Success(keys)
    ensures InspectSpec(root, args).Success? <==> forall i :: 0 <= i < |keys| ==> !ReadOrUndefined(obj, keys[i]).Null?
    ensures InspectSpec(root, args).Failure? ==> InspectSpec(root, args).error == NullToStringError
    ensures InspectSpec(root, args).Success? ==>
      var m := InspectSpec(root, args).value;
      && m.Keys == set k | k in keys
      && forall k :: k in m ==> MemberOf(obj, k) == Success(m[k])
  {
    assert InspectSpec(root, args) == Members(obj, keys);
    MembersSpec(obj, keys);
  }

  /** A null member is `typeof` "object", so `getFunctionParams(null)` throws and the whole request fails. */
  lemma InspectNullMember(root: Value, args: seq<string>, obj: Value, i: nat)
    requires Walk(root, Segments(PathArg(args))) == Found(obj) && OwnKeys(obj).Success?
    requires i < |OwnKeys(obj).value| && Get(obj, OwnKeys(obj).value[i]) == Success(Null)
    ensures InspectSpec(root, args) == Failure(NullToStringError)
  {
    assert ReadOrUndefined(obj, OwnKeys(obj).value[i]).Null?;
    MembersSpec(obj, OwnKeys(obj).value);
  }

  /** An empty path, or no argument at all, describes the root itself. */
  lemma InspectEmptyPath(root: Value)
    ensures InspectSpec(root, [""]) == InspectSpec(root, [])
    ensures Walk(root, Segments("")) == Found(root)
  {
    EmptySegmentsSkipped("", "");
  }

  /**
   * The worked example: `inspect("")` on a root `{a: 1, b: function(x,y){}}`
   * gives `a` as a number without parameters and `b` as a function of x and y.
   */
  lemma InspectExample(root: Value, src: string)
    requires src == "function(x,y){}"
    requires root == Obj(Props(["a", "b"], map["a" := Data(Num(1)), "b" := Data(Func(src, Props([], map[])))]))
    ensures InspectSpec(root, [""]) == Success(map[
      "a" := Member("a", NumberType, None),
      "b" := Member("b", FunctionType, Some(["x", "y"]))])
    ensures InspectSpec(root, [""]).value["a"].typ.Name() == "number"
    ensures InspectSpec(root, [""]).value["b"].typ.Name() == "function"
  {
    InspectRoot(root, ["a", "b"]);
    ExampleMembers(root, src);
    TwoMembers(root, "a", "b", Member("a", NumberType, None), Member("b", FunctionType, Some(["x", "y"])));
  }

  /** `inspect("")` on a plain object describes its own keys. */
  lemma InspectRoot(root: Value, keys: seq<string>)
    requires root.Obj? && root.own.keys == keys
    ensures InspectSpec(root, [""]) == Members(root, keys)
  {
    InspectEmptyPath(root);
  }

  /** The dictionary of two keys whose descriptions succeed. */
  lemma TwoMembers(obj: Value, k1: string, k2: string, d1: Member, d2: Member)
    requires MemberOf(obj, k1) == Success(d1) && MemberOf(obj, k2) == Success(d2)
    ensures Members(obj, [k1, k2]) == Success(map[k1 := d1, k2 := d2])
  {
    MembersSnoc(obj, [], k1);
    assert [] + [k1] == [k1];
    MembersSnoc(obj, [k1], k2);
    assert [k1] + [k2] == [k1, k2];
  }

  /** The two members of the worked example, one at a time. */
  lemma ExampleMembers(root: Value, src: string)
    requires src == "function(x,y){}"
    requires root == Obj(Props(["a", "b"], map["a" := Data(Num(1)), "b" := Data(Func(src, Props([], map[])))]))
    ensures MemberOf(root, "a") == Success(Member("a", NumberType, None))
    ensures MemberOf(root, "b") == Success(Member("b", FunctionType, Some(["x", "y"])))
  {
    assert ReadOrUndefined(root, "a") == Num(1);
    assert ReadOrUndefined(root, "b") == Func(src, Props([], map[]));
    ExampleParams(src);
  }

  /** The parameters of `function(x,y){}`. */
  lemma ExampleParams(src: string)
    requires src == "function(x,y){}"
    ensures ParamsFromSource(src) == ["x", "y"]
  {
    var head, body := src[..8], src[13..];
    var names := ["x", "y"];
    var sig := head + "(" + ParamList(names) + ")";
    assert src == sig + body by {
      assert ParamList(names) == "x,y";
    }
    assert NoOpener(sig) by {
      assert ParamList(names) == "x,y";
      assert sig == "function(x,y)";
      assert forall k :: 0 <= k < |sig| ==> sig[k] != '/';
    }
    assert '(' !in head by {
      assert forall k :: 0 <= k < |head| ==> head[k] != '(';
    }
    ParamsOfSignature(head, names, body);
  }
}
