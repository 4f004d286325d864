/**
 * `getFunctionParams` (src/extension.ts:61-69): the parameter names of a
 * function read off its source text. Block comments are removed first
 * (`/\/\*[\s\S]*?\*\//g`: shortest match, left to right, no overlap), then
 * the text between the first `(` and the first `)` after it is split on
 * commas, each piece trimmed and the empty pieces dropped.
 */
module Params {
  import opened Wrappers
  import opened Text
  import opened JsValues

  // A comment opener (slash, star) starts at k.
  predicate IsOpenerAt(s: string, k: int) {
    0 <= k && k + 1 < |s| && s[k] == '/' && s[k + 1] == '*'
  }

  // A comment closer (star, slash) starts at k.
  predicate IsCloserAt(s: string, k: int) {
    0 <= k && k + 1 < |s| && s[k] == '*' && s[k + 1] == '/'
  }

  predicate NoOpener(s: string) {
    forall k :: 0 <= k < |s| ==> !IsOpenerAt(s, k)
  }

  predicate NoCloser(s: string) {
    forall k :: 0 <= k < |s| ==> !IsCloserAt(s, k)
  }

  /** The first closer starting at or after `from`. */
  function FindCloser(s: string, from: nat): (r: Option<nat>)
    requires from <= |s|
    ensures r.Some? ==> from <= r.value && IsCloserAt(s, r.value)
    ensures r.Some? ==> forall k :: from <= k < r.value ==> !IsCloserAt(s, k)
    ensures r.None? ==> forall k :: from <= k ==> !IsCloserAt(s, k)
    decreases |s| - from
  {
    if from + 2 > |s| then None
    else if s[from] == '*' && s[from + 1] == '/' then Some(from)
    else FindCloser(s, from + 1)
  }

  /**
   * The text with every block comment removed. At each position the regex
   * tries an opener; if a closer follows, opener through closer is dropped
   * and the scan resumes after it; otherwise the character is kept.
   */
  function StripBlockComments(s: string): (r: string)
    ensures |r| <= |s|
    decreases |s|
  {
    if |s| < 2 then s
    else if s[0] == '/' && s[1] == '*' then
      match FindCloser(s, 2)
      case Some(j) => StripBlockComments(s[j + 2..])
      case None => [s[0]] + StripBlockComments(s[1..])
    else [s[0]] + StripBlockComments(s[1..])
  }

  /** Every opener the scan of `s` meets is closed inside `s`. */
  predicate Closed(s: string)
    decreases |s|
  {
    if |s| < 2 then true
    else if s[0] == '/' && s[1] == '*' then
      match FindCloser(s, 2)
      case Some(j) => Closed(s[j + 2..])
      case None => false
    else Closed(s[1..])
  }

  /** The first closer of a prefix is still the first closer once text is appended. */
  lemma FindCloserAppend(a: string, b: string, from: nat)
    requires from <= |a| && FindCloser(a, from).Some?
    ensures FindCloser(a + b, from) == FindCloser(a, from)
  {
    var j := FindCloser(a, from).value;
    assert IsCloserAt(a + b, j);
    var r := FindCloser(a + b, from);
    if r.Some? && r.value < j {
      assert IsCloserAt(a, r.value);
    }
  }

  /** Text without openers is left as it is, and every opener in it is (vacuously) closed. */
  lemma {:induction false} StripNoOpener(s: string)
    requires NoOpener(s)
    ensures StripBlockComments(s) == s && Closed(s)
    decreases |s|
  {
    if |s| >= 2 {
      assert !IsOpenerAt(s, 0);
      assert NoOpener(s[1..]) by {
        forall k ensures !IsOpenerAt(s[1..], k) {
          assert !IsOpenerAt(s, k + 1);
        }
      }
      StripNoOpener(s[1..]);
    }
  }

  /** Without a closer no comment can end, so an opener is kept as text and nothing is removed. */
  lemma {:induction false} StripNoCloser(s: string)
    requires NoCloser(s)
    ensures StripBlockComments(s) == s
    decreases |s|
  {
    if |s| >= 2 {
      assert NoCloser(s[1..]) by {
        forall k ensures !IsCloserAt(s[1..], k) {
          assert !IsCloserAt(s, k + 1);
        }
      }
      StripNoCloser(s[1..]);
    }
  }

  /**
   * Stripping distributes over concatenation when the left part closes
   * every opener it starts, and the two parts do not form a new opener
   * where they meet.
   */
  lemma {:induction false} StripAppend(a: string, b: string)
    requires Closed(a)
    requires !(a != [] && a[|a| - 1] == '/' && b != [] && b[0] == '*')
    ensures StripBlockComments(a + b) == StripBlockComments(a) + StripBlockComments(b)
    decreases |a|, 1
  {
    if a == [] {
      assert a + b == b;
    } else if |a| == 1 {
      StripAppendOne(a, b);
    } else if a[0] == '/' && a[1] == '*' {
      StripAppendComment(a, b);
    } else {
      ClosedPlainStep(a);
      StripAppendPlain(a, b);
    }
  }

  lemma StripAppendOne(a: string, b: string)
    requires |a| == 1
    requires !(a[0] == '/' && b != [] && b[0] == '*')
    ensures StripBlockComments(a + b) == StripBlockComments(a) + StripBlockComments(b)
  {
    assert StripBlockComments(a) == a;
    if b == [] {
      assert a + b == a;
    } else {
      var s := a + b;
      assert s[0] == a[0] && s[1] == b[0] && s[1..] == b;
      assert !(s[0] == '/' && s[1] == '*');
      assert StripBlockComments(s) == [s[0]] + StripBlockComments(s[1..]);
    }
  }

  lemma {:induction false} StripAppendComment(a: string, b: string)
    requires |a| >= 2 && a[0] == '/' && a[1] == '*' && Closed(a)
    requires !(a[|a| - 1] == '/' && b != [] && b[0] == '*')
    ensures StripBlockComments(a + b) == StripBlockComments(a) + StripBlockComments(b)
    decreases |a|, 0
  {
    var j := FindCloser(a, 2).value;
    FindCloserAppend(a, b, 2);
    var s := a + b;
    assert s[0] == '/' && s[1] == '*';
    assert StripBlockComments(s) == StripBlockComments(s[j + 2..]);
    assert s[j + 2..] == a[j + 2..] + b;
    StripAppend(a[j + 2..], b);
  }

  /** A first character that does not open a comment is kept. */
  lemma StripPlainStep(s: string)
    requires |s| >= 2 && !(s[0] == '/' && s[1] == '*')
    ensures StripBlockComments(s) == [s[0]] + StripBlockComments(s[1..])
  {
  }

  /** The first character of the left part is kept when it does not open a comment. */
  lemma StripPlainAppendStep(a: string, b: string)
    requires |a| >= 2 && !(a[0] == '/' && a[1] == '*')
    ensures StripBlockComments(a + b) == [a[0]] + StripBlockComments(a[1..] + b)
  {
    var s := a + b;
    assert s[0] == a[0] && s[1] == a[1];
    StripPlainStep(s);
    assert s[1..] == a[1..] + b;
  }

  lemma ConsAppendAssoc(x: char, p: string, q: string)
    ensures [x] + (p + q) == ([x] + p) + q
  {
  }

  /** A first character that does not open a comment leaves the rest to be closed. */
  lemma ClosedPlainStep(a: string)
    requires |a| >= 2 && !(a[0] == '/' && a[1] == '*') && Closed(a)
    ensures Closed(a[1..])
  {
  }

  lemma {:induction false} StripAppendPlain(a: string, b: string)
    requires |a| >= 2 && !(a[0] == '/' && a[1] == '*') && Closed(a[1..])
    requires !(a[|a| - 1] == '/' && b != [] && b[0] == '*')
    ensures StripBlockComments(a + b) == StripBlockComments(a) + StripBlockComments(b)
    decreases |a|, 0
  {
    var rest := a[1..];
    StripPlainAppendStep(a, b);
    StripPlainStep(a);
    assert rest[|rest| - 1] == a[|a| - 1];
    StripAppend(rest, b);
    ConsAppendAssoc(a[0], StripBlockComments(rest), StripBlockComments(b));
  }

  /** A leading closed comment is removed and contributes nothing. */
  lemma StripLeadingComment(c: string, b: string)
    requires NoCloser(c)
    ensures StripBlockComments("/*" + c + "*/" + b) == StripBlockComments(b)
  {
    var s := "/*" + c + "*/" + b;
    var j := 2 + |c|;
    assert IsCloserAt(s, j);
    forall k | 2 <= k < j ensures !IsCloserAt(s, k) {
      if k + 1 < j {
        assert !IsCloserAt(c, k - 2);
      }
    }
    var r := FindCloser(s, 2);
    assert r == Some(j);
    assert s[j + 2..] == b;
  }

  /**
   * A closed block comment inserted after text that closes its own
   * comments is removed without a trace.
   */
  lemma StripInsertedComment(a: string, c: string, b: string)
    requires Closed(a) && NoCloser(c)
    ensures StripBlockComments(a + "/*" + c + "*/" + b) == StripBlockComments(a) + StripBlockComments(b)
  {
    assert a + "/*" + c + "*/" + b == a + ("/*" + c + "*/" + b);
    StripAppend(a, "/*" + c + "*/" + b);
    StripLeadingComment(c, b);
  }

  /** The first occurrence of `c` at or after `from`. */
  function IndexOf(s: string, c: char, from: nat): (r: Option<nat>)
    requires from <= |s|
    ensures r.Some? ==> from <= r.value < |s| && s[r.value] == c
    ensures r.Some? ==> forall k :: from <= k < r.value ==> s[k] != c
    ensures r.None? ==> forall k :: from <= k < |s| ==> s[k] != c
    decreases |s| - from
  {
    if from == |s| then None
    else if s[from] == c then Some(from)
    else IndexOf(s, c, from + 1)
  }

  /** Some `(` is followed, somewhere later, by a `)`. */
  predicate HasParenPair(t: string) {
    exists p, q :: 0 <= p < q < |t| && t[p] == '(' && t[q] == ')'
  }

  /**
   * The capture group of `/^[\s\S]*?\(([^)]*)\)/`: the text between the
   * first `(` and the first `)` after it, or no match.
   */
  function ParamText(t: string): (g: Option<string>)
    ensures g.None? <==> !HasParenPair(t)
    ensures g.Some? ==> ')' !in g.value
    ensures g.Some? ==> forall c :: c in g.value ==> c in t
  {
    match IndexOf(t, '(', 0)
    case None => None
    case Some(p) =>
      match IndexOf(t, ')', p + 1)
      case None =>
        assert !HasParenPair(t) by {
          forall p', q' | 0 <= p' < q' < |t| && t[p'] == '(' ensures t[q'] != ')' {
            assert p <= p';
          }
        }
        None
      case Some(q) =>
        assert HasParenPair(t) by { assert t[p] == '(' && t[q] == ')'; }
        assert forall c :: c in t[p + 1..q] ==> c in t;
        Some(t[p + 1..q])
  }

  /** Once the first `(` has a `)` after it, text appended later does not matter. */
  lemma ParamTextAppend(t: string, u: string)
    requires ParamText(t).Some?
    ensures ParamText(t + u) == ParamText(t)
  {
    var p := IndexOf(t, '(', 0).value;
    var q := IndexOf(t, ')', p + 1).value;
    var p' := IndexOf(t + u, '(', 0);
    assert (t + u)[p] == '(';
    assert p'.Some? && p'.value <= p;
    var q' := IndexOf(t + u, ')', p + 1);
    assert (t + u)[q] == ')';
    assert q'.Some? && q'.value <= q;
    assert (t + u)[p + 1..q] == t[p + 1..q];
  }

  /** A token `getFunctionParams` can return. */
  predicate IsParamToken(tok: string) {
    && tok != []
    && !IsJsWhitespace(tok[0]) && !IsJsWhitespace(tok[|tok| - 1])
    && ',' !in tok && ')' !in tok
  }

  /** `g.split(',').map(arg => arg.trim()).filter(arg => arg)`. */
  function SplitParams(g: string): (r: seq<string>)
    ensures |r| <= Count(g, ',') + 1
    ensures ')' !in g ==> forall tok :: tok in r ==> IsParamToken(tok)
    ensures IsSubsequence(r, TrimAll(Split(g, ',')))
  {
    var pieces := Split(g, ',');
    var r := DropEmpty(TrimAll(pieces));
    forall tok | tok in r && ')' !in g ensures IsParamToken(tok) {
      var i :| 0 <= i < |pieces| && tok == Trim(pieces[i]);
      assert forall c :: c in tok ==> c in pieces[i];
    }
    r
  }

  /** `getFunctionParams` on the source text of a function. */
  function ParamsFromSource(src: string): (r: seq<string>)
    ensures ParamText(StripBlockComments(src)).None? ==> r == []
    ensures ParamText(StripBlockComments(src)).Some? ==>
      |r| <= Count(ParamText(StripBlockComments(src)).value, ',') + 1
    ensures forall tok :: tok in r ==> IsParamToken(tok)
  {
    match ParamText(StripBlockComments(src))
    case None => []
    case Some(g) => SplitParams(g)
  }

  /**
   * `getFunctionParams(fn)`: `fn.toString()` is parsed as above; for a
   * plain object that text is "[object Object]", which has no parameter
   * list, and for null `toString` throws.
   */
  function GetFunctionParams(fn: Value): (r: Result<seq<string>, string>)
    requires TypeOf(fn) == ObjectType || TypeOf(fn) == FunctionType
    ensures r.Failure? <==> fn.Null?
    ensures r.Failure? ==> r.error == NullToStringError
    ensures fn.Obj? ==> r == Success([])
    ensures fn.Func? ==> r == Success(ParamsFromSource(fn.source))
  {
    match FunctionText(fn)
    case Failure(e) => Failure(e)
    case Success(text) =>
      if fn.Obj? then
        ObjectStringHasNoParams();
        Success(ParamsFromSource(text))
      else
        Success(ParamsFromSource(text))
  }

  /** "[object Object]" has no parenthesis, so no parameters. */
  lemma ObjectStringHasNoParams()
    ensures ParamsFromSource(ObjectString) == []
  {
    NoParenNoParams(ObjectString);
  }

  /** Text with neither a comment opener nor a `(` has no parameter list. */
  lemma NoParenNoParams(src: string)
    requires NoOpener(src) && '(' !in src
    ensures ParamsFromSource(src) == []
  {
    StripNoOpener(src);
  }

  /** The comma-joined parameter list as it is written between the parentheses. */
  function ParamList(names: seq<string>): string {
    if names == [] then "" else Join(names, ',')
  }

  /**
   * Round trip: a signature `head(n1,...,nk)` followed by any body yields
   * exactly the names n1..nk, provided the head has no `(` and the
   * signature contains no comment opener.
   */
  lemma ParamsOfSignature(head: string, names: seq<string>, body: string)
    requires '(' !in head
    requires forall i :: 0 <= i < |names| ==> IsParamToken(names[i])
    requires NoOpener(head + "(" + ParamList(names) + ")")
    ensures ParamsFromSource(head + "(" + ParamList(names) + ")" + body) == names
  {
    if names != [] {
      JoinAvoids(names, ',', ')');
    }
    SignatureText(head, ParamList(names), body);
    SplitParamsList(names);
  }

  /**
   * A comment-free signature `head(list)` followed by any body: the regex
   * captures exactly `list`, whatever the body holds.
   */
  lemma SignatureText(head: string, list: string, body: string)
    requires '(' !in head && ')' !in list
    requires NoOpener(head + "(" + list + ")")
    ensures ParamText(StripBlockComments(head + "(" + list + ")" + body)) == Some(list)
  {
    var sig := head + "(" + list + ")";
    assert sig[|sig| - 1] == ')';
    StripCommentFree(sig, body);
    SignatureCapture(head, list);
    ParamTextAppend(sig, StripBlockComments(body));
  }

  /** Comment-free text in front is kept as it is. */
  lemma StripCommentFree(sig: string, body: string)
    requires NoOpener(sig) && (sig == [] || sig[|sig| - 1] != '/')
    ensures StripBlockComments(sig + body) == sig + StripBlockComments(body)
  {
    StripNoOpener(sig);
    StripAppend(sig, body);
  }

  /** The capture of `head(list)` alone. */
  lemma SignatureCapture(head: string, list: string)
    requires '(' !in head && ')' !in list
    ensures ParamText(head + "(" + list + ")") == Some(list)
  {
    var sig := head + "(" + list + ")";
    var p, q := |head|, |head| + 1 + |list|;
    assert sig[p] == '(' && sig[q] == ')';
    assert forall k :: 0 <= k < p ==> sig[k] == head[k];
    assert forall k :: p < k < q ==> sig[k] == list[k - p - 1];
    ParamTextAt(sig, p, q);
    assert sig[p + 1..q] == list;
  }

  /**
   * A list as it is usually written, with blanks around the names and
   * possibly empty pieces (`a, b`, `a,`, ` `): the result is every piece
   * trimmed, in order, with the empty ones left out.
   */
  lemma SplitParamsPadded(pieces: seq<string>)
    requires |pieces| >= 1
    requires forall i :: 0 <= i < |pieces| ==> ',' !in pieces[i]
    ensures SplitParams(Join(pieces, ',')) == DropEmpty(TrimAll(pieces))
  {
    SplitJoin(pieces, ',');
  }

  /**
   * A comment-free signature `head(p1,...,pk)` followed by any body yields
   * the pieces p1..pk trimmed, in order, without the empty ones.
   */
  lemma ParamsOfPaddedSignature(head: string, pieces: seq<string>, body: string)
    requires '(' !in head
    requires |pieces| >= 1
    requires forall i :: 0 <= i < |pieces| ==> ',' !in pieces[i] && ')' !in pieces[i]
    requires NoOpener(head + "(" + Join(pieces, ',') + ")")
    ensures ParamsFromSource(head + "(" + Join(pieces, ',') + ")" + body) == DropEmpty(TrimAll(pieces))
  {
    JoinAvoids(pieces, ',', ')');
    SignatureText(head, Join(pieces, ','), body);
    SplitParamsPadded(pieces);
  }

  /** The pieces of a list written the common way, `a, b, c`: a blank after every comma. */
  function Spaced(names: seq<string>): (pieces: seq<string>)
    ensures |pieces| == |names|
    ensures |names| > 0 ==> pieces[0] == names[0]
    ensures forall i :: 0 < i < |names| ==> pieces[i] == [' '] + names[i]
  {
    seq(|names|, i requires 0 <= i < |names| => if i == 0 then names[i] else [' '] + names[i])
  }

  /**
   * A signature written the common way, `head(a, b, c)`, followed by any
   * body yields exactly the names: the blanks after the commas are trimmed.
   */
  lemma ParamsOfSpacedSignature(head: string, names: seq<string>, body: string)
    requires '(' !in head
    requires |names| >= 1
    requires forall i :: 0 <= i < |names| ==> IsParamToken(names[i])
    requires NoOpener(head + "(" + Join(Spaced(names), ',') + ")")
    ensures ParamsFromSource(head + "(" + Join(Spaced(names), ',') + ")" + body) == names
  {
    SpacedPieces(names);
    ParamsOfPaddedSignature(head, Spaced(names), body);
    SpacedTrimmed(names);
  }

  /** The spaced pieces of well-formed names hold no comma and no `)`. */
  lemma SpacedPieces(names: seq<string>)
    requires forall i :: 0 <= i < |names| ==> IsParamToken(names[i])
    ensures forall i :: 0 <= i < |names| ==> ',' !in Spaced(names)[i] && ')' !in Spaced(names)[i]
  {
    var pieces := Spaced(names);
    forall i | 0 <= i < |names| ensures ',' !in pieces[i] && ')' !in pieces[i] {
      assert i > 0 ==> pieces[i] == [' '] + names[i];
    }
  }

  /** Trimming the spaced pieces of well-formed names gives the names back, none of them empty. */
  lemma SpacedTrimmed(names: seq<string>)
    requires forall i :: 0 <= i < |names| ==> IsParamToken(names[i])
    ensures DropEmpty(TrimAll(Spaced(names))) == names
  {
    var pieces := Spaced(names);
    forall i | 0 <= i < |names| ensures TrimAll(pieces)[i] == names[i] {
      if i == 0 {
        TrimTrimmed(names[0]);
      } else {
        TrimBlankThenWord(names[i]);
      }
    }
    assert TrimAll(pieces) == names;
    DropEmptyNoEmpty(names);
  }

  /** A single leading blank before a word is trimmed away. */
  lemma TrimBlankThenWord(w: string)
    requires w != [] && !IsJsWhitespace(w[0]) && !IsJsWhitespace(w[|w| - 1])
    ensures Trim([' '] + w) == w
  {
    assert ([' '] + w)[1..] == w;
    assert TrimStart([' '] + w) == w;
    TrimTrimmed(w);
  }

  /** Splitting a written parameter list gives its names back. */
  lemma SplitParamsList(names: seq<string>)
    requires forall i :: 0 <= i < |names| ==> IsParamToken(names[i])
    ensures SplitParams(ParamList(names)) == names
  {
    if names != [] {
      SplitParamsPadded(names);
      TrimmedNames(names);
    }
  }

  /** Well-formed names are neither changed by trimming nor dropped by the filter. */
  lemma TrimmedNames(names: seq<string>)
    requires forall i :: 0 <= i < |names| ==> IsParamToken(names[i])
    ensures DropEmpty(TrimAll(names)) == names
  {
    forall i | 0 <= i < |names| ensures TrimAll(names)[i] == names[i] {
      TrimTrimmed(names[i]);
    }
    assert TrimAll(names) == names;
    DropEmptyNoEmpty(names);
  }

  /**
   * A closed block comment placed after text that closes its own comments,
   * and not right between a `/` and a `*`, does not change the parameters.
   */
  lemma ParamsIgnoreComment(a: string, c: string, b: string)
    requires Closed(a) && NoCloser(c)
    requires !(a != [] && a[|a| - 1] == '/' && b != [] && b[0] == '*')
    ensures ParamsFromSource(a + "/*" + c + "*/" + b) == ParamsFromSource(a + b)
  {
    StripInsertedComment(a, c, b);
    StripAppend(a, b);
  }

  /** The match found from the positions of the first `(` and the first `)` after it. */
  lemma ParamTextAt(t: string, p: nat, q: nat)
    requires p < q < |t| && t[p] == '(' && t[q] == ')'
    requires forall k :: 0 <= k < p ==> t[k] != '('
    requires forall k :: p < k < q ==> t[k] != ')'
    ensures ParamText(t) == Some(t[p + 1..q])
  {
    var p' := IndexOf(t, '(', 0);
    assert p'.Some? && p'.value == p;
    var q' := IndexOf(t, ')', p + 1);
    assert q'.Some? && q'.value == q;
  }

  /** A text that starts with two characters other than `(` and then "(x)" has the list "x". */
  lemma ParamTextOfX(t: string)
    requires |t| >= 5 && t[0] != '(' && t[1] != '(' && t[2] == '(' && t[3] == 'x' && t[4] == ')'
    ensures ParamText(t) == Some("x")
  {
    forall k | 0 <= k < 2 ensures t[k] != '(' {
    }
    forall k | 2 < k < 4 ensures t[k] != ')' {
      assert k == 3;
    }
    ParamTextAt(t, 2, 4);
    assert t[3..4] == "x";
  }

  /** The parameters of a source whose stripped text has the list "x". */
  lemma ParamsOfX(src: string)
    requires ParamText(StripBlockComments(src)) == Some("x")
    ensures ParamsFromSource(src) == ["x"]
  {
    assert ParamList(["x"]) == "x";
    SplitParamsList(["x"]);
  }

  /**
   * Why the conditions above are needed, first case: a comment placed
   * between a slash and a star breaks up an opener, so the parameter list
   * the opener hid becomes visible.
   */
  lemma CommentCanSplitOpener()
    ensures ParamsFromSource("/" + "/**/" + "*(x)*/") == ["x"]
  {
    StripSplitOpener();
    ParamTextOfX("/" + "*(x)*/");
    ParamsOfX("/" + "/**/" + "*(x)*/");
  }

  lemma StripSplitOpener()
    ensures StripBlockComments("/" + "/**/" + "*(x)*/") == "/" + "*(x)*/"
  {
    StripCommentAfterSlash("*(x)*/");
  }

  /** A comment right after a lone `/` is removed, and text without openers after it is kept. */
  lemma StripCommentAfterSlash(tail: string)
    requires NoOpener(tail)
    ensures StripBlockComments("/" + "/**/" + tail) == "/" + tail
  {
    var s := "/" + "/**/" + tail;
    StripPlainStep(s);
    assert s[1..] == "/*" + "" + "*/" + tail;
    StripLeadingComment("", tail);
    StripNoOpener(tail);
  }

  /** Without the inserted comment the same text is one comment and has no parameters. */
  lemma OpenerHidesParams()
    ensures ParamsFromSource("/" + "*(x)*/") == []
  {
    assert "/" + "*(x)*/" == "/*" + "(x)" + "*/" + "";
    StripLeadingComment("(x)", "");
  }

  /**
   * Second case: a comment placed after an unclosed opener closes that
   * opener early and swallows the parameter list.
   */
  lemma CommentCanCloseOpener()
    ensures ParamsFromSource("/*(x" + "/**/" + ")") == []
  {
    assert "/*(x" + "/**/" + ")" == "/*" + "(x/*" + "*/" + ")";
    StripLeadingComment("(x/*", ")");
    StripNoOpener(")");
  }

  /** Without the inserted comment the opener stays unclosed and the list is read. */
  lemma UnclosedOpenerKeepsParams()
    ensures ParamsFromSource("/*(x" + ")") == ["x"]
  {
    var t := "/*(x" + ")";
    assert FindCloser(t, 2).None? by {
      assert forall k :: 2 <= k < |t| ==> t[k] != '*';
    }
    StripNoOpener("*(x)");
    assert t[1..] == "*(x)";
    assert StripBlockComments(t) == [t[0]] + StripBlockComments(t[1..]);
    assert StripBlockComments(t) == t;
    ParamTextOfX(t);
    ParamsOfX(t);
  }
}
