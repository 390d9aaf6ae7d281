/**
 * The API contract shared by client and server: the route paths, the task
 * part of the chat reply, and `buildUrl`, which fills `:key` placeholders of a
 * path with parameter values.
 */
module SharedRoutes {
  import opened Wrappers
  import opened JsString

  const ChatPath := "/api/chat"
  const TasksPath := "/api/tasks"
  const CompletePath := "/api/tasks/:id/complete"
  const DeletePath := "/api/tasks/:id"

  /** The optional `task` of the chat endpoint's 200 response. */
  datatype ChatTask = ChatTask(title: string, description: string, timeLimit: int)

  /** A value of the `params` record: a string or a (whole) number. */
  datatype ParamValue = Str(s: string) | Num(n: int)

  /** `String(value)`. */
  function ValueString(v: ParamValue): string {
    match v
    case Str(s) => s
    case Num(n) => IntToString(n)
  }

  /** The placeholder `:key` written for a parameter. */
  function Placeholder(key: string): string {
    ":" + key
  }

  /**
   * One step of the loop: if the url includes `:key`, its first occurrence
   * becomes `String(value)`; otherwise the url stays as it is.
   */
  function Substitute(url: string, key: string, value: ParamValue): (r: string)
    ensures Includes(url, Placeholder(key)) ==> |r| == |url| - |Placeholder(key)| + |ValueString(value)|
    ensures (forall j :: !OccursAt(url, Placeholder(key), j)) ==> r == url
  {
    if Includes(url, Placeholder(key)) then Replace(url, Placeholder(key), ValueString(value))
    else url
  }

  /** The step replaces the first `:key` by `String(value)`, and is the identity when there is none. */
  lemma SubstituteFirst(url: string, key: string, value: ParamValue, i: nat)
    requires IsFirstOccurrence(url, Placeholder(key), i)
    ensures Substitute(url, key, value) == url[..i] + ValueString(value) + url[i + |key| + 1..]
  {
    var pat, rep := Placeholder(key), ValueString(value);
    IndexFromIsFirst(url, pat, 0, i);
    assert IndexOf(url, pat) == Some(i);
    assert Substitute(url, key, value) == Replace(url, pat, rep);
  }

  lemma SubstituteAbsent(url: string, key: string, value: ParamValue)
    requires forall j :: !OccursAt(url, Placeholder(key), j)
    ensures Substitute(url, key, value) == url
  {
  }

  /** The url after the entries of `params` were applied in order, each to the result of the ones before. */
  function Substituted(path: string, params: seq<(string, ParamValue)>): (r: string)
  {
    if params == [] then path
    else
      var last := params[|params| - 1];
      Substitute(Substituted(path, params[..|params| - 1]), last.0, last.1)
  }

  /** `buildUrl(path, params)`; `None` is an absent `params`, entries come in `Object.entries` order. */
  method BuildUrl(path: string, params: Option<seq<(string, ParamValue)>>) returns (url: string)
    ensures params.None? ==> url == path
    ensures params.Some? ==> url == Substituted(path, params.value)
  {
    url := path;
    if params.Some? {
      var entries := params.value;
      for i := 0 to |entries|
        invariant url == Substituted(path, entries[..i])
      {
        var (key, value) := entries[i];
        assert entries[..i + 1][..i] == entries[..i];
        if Includes(url, Placeholder(key)) {
          url := Replace(url, Placeholder(key), ValueString(value));
        }
      }
      assert entries[..|entries|] == entries;
    }
  }

  /** Applying `a` and then `b` is applying `a + b`: each entry sees the url the earlier ones produced. */
  lemma {:induction false} SubstitutedAppend(path: string, a: seq<(string, ParamValue)>, b: seq<(string, ParamValue)>)
    ensures Substituted(path, a + b) == Substituted(Substituted(path, a), b)
  {
    if b == [] {
      assert a + b == a;
    } else {
      var ab := a + b;
      var init := b[..|b| - 1];
      assert ab[..|ab| - 1] == a + init;
      assert ab[|ab| - 1] == b[|b| - 1];
      SubstitutedAppend(path, a, init);
      calc {
        Substituted(path, ab);
        Substitute(Substituted(path, a + init), b[|b| - 1].0, b[|b| - 1].1);
        Substitute(Substituted(Substituted(path, a), init), b[|b| - 1].0, b[|b| - 1].1);
        Substituted(Substituted(path, a), b);
      }
    }
  }

  /** A path holding none of the entries' placeholders comes back unchanged. */
  lemma {:induction false} SubstitutedUntouched(path: string, params: seq<(string, ParamValue)>)
    requires forall k :: 0 <= k < |params| ==> !Includes(path, Placeholder(params[k].0))
    ensures Substituted(path, params) == path
  {
    if params != [] {
      var init := params[..|params| - 1];
      assert forall k :: 0 <= k < |init| ==> init[k] == params[k];
      SubstitutedUntouched(path, init);
      assert !Includes(path, Placeholder(params[|params| - 1].0));
    }
  }

  /** A key whose placeholder is nowhere in the path does nothing. */
  lemma SubstitutedAbsentKey(path: string, key: string, value: ParamValue)
    requires !Includes(path, Placeholder(key))
    ensures Substituted(path, [(key, value)]) == path
  {
    assert [(key, value)][..0] == [];
  }

  lemma SubstitutedSingle(path: string, key: string, value: ParamValue)
    ensures Substituted(path, [(key, value)]) == Substitute(path, key, value)
  {
    assert [(key, value)][..0] == [];
  }

  /** The placeholder after a prefix free of `:` is the first one. */
  lemma SubstituteAfter(a: string, key: string, b: string, value: ParamValue)
    requires ':' !in a
    ensures Substitute(a + Placeholder(key) + b, key, value) == a + ValueString(value) + b
  {
    var url := a + Placeholder(key) + b;
    IndexFromAfter(a, Placeholder(key), b, 0);
    assert url[..|a|] == a && url[|a| + |key| + 1..] == b;
    SubstituteFirst(url, key, value, |a|);
  }

  /** `buildUrl("/api/tasks/:id/complete", {id: 7})` is `"/api/tasks/7/complete"`. */
  lemma CompleteUrlExample()
    ensures Substituted(CompletePath, [("id", Num(7))]) == "/api/tasks/7/complete"
  {
    var pre, post := "/api/tasks/", "/complete";
    CompletePathParts();
    SubstitutedSingle(CompletePath, "id", Num(7));
    SubstituteAfter(pre, "id", post, Num(7));
    SevenString();
    CompleteUrlParts();
  }

  lemma CompletePathParts()
    ensures CompletePath == "/api/tasks/" + Placeholder("id") + "/complete"
    ensures ':' !in "/api/tasks/"
  {
  }

  lemma CompleteUrlParts()
    ensures "/api/tasks/" + "7" + "/complete" == "/api/tasks/7/complete"
  {
  }

  lemma SevenString()
    ensures ValueString(Num(7)) == "7"
  {
    assert NatToString(7) == [DigitChar(7)];
  }

  /** Matching is by substring: key `id` also rewrites the start of `:idx`. */
  lemma PrefixKeyExample()
    ensures Substituted("/items/:idx", [("id", Num(7))]) == "/items/7x"
  {
    SubstitutedSingle("/items/:idx", "id", Num(7));
    PrefixKeyParts();
    SubstituteAfter("/items/", "id", "x", Num(7));
    SevenString();
  }

  lemma PrefixKeyParts()
    ensures "/items/:idx" == "/items/" + Placeholder("id") + "x"
    ensures ':' !in "/items/"
    ensures "/items/" + "7" + "x" == "/items/7x"
  {
  }

  /** Only the first occurrence is replaced: a repeated placeholder keeps its second occurrence. */
  lemma FirstOccurrenceExample()
    ensures Substituted("/:id/:id", [("id", Str("a"))]) == "/a/:id"
  {
    SubstitutedSingle("/:id/:id", "id", Str("a"));
    RepeatedParts();
    SubstituteAfter("/", "id", "/:id", Str("a"));
  }

  lemma RepeatedParts()
    ensures "/:id/:id" == "/" + Placeholder("id") + "/:id"
    ensures ':' !in "/"
    ensures "/" + ValueString(Str("a")) + "/:id" == "/a/:id"
  {
  }

  /** A different key of the same length does not match a lone placeholder. */
  lemma SubstituteOtherKey(k1: string, k2: string, value: ParamValue)
    requires |k1| == |k2| && k1 != k2
    ensures Substitute(Placeholder(k1), k2, value) == Placeholder(k1)
  {
    forall j ensures !OccursAt(Placeholder(k1), Placeholder(k2), j) {
      if j == 0 && j + |k2| + 1 <= |k1| + 1 {
        assert Placeholder(k1)[0..|k2| + 1] == Placeholder(k1);
        assert Placeholder(k1)[1..] == k1 && Placeholder(k2)[1..] == k2;
      }
    }
    SubstituteAbsent(Placeholder(k1), k2, value);
  }

  /** Entries apply in order: a value that writes a later key's placeholder is filled in by that key. */
  lemma OrderExample()
    ensures Substituted(":a", [("a", Str(":b")), ("b", Str("x"))]) == "x"
  {
    SubstitutedAppend(":a", [("a", Str(":b"))], [("b", Str("x"))]);
    SubstitutedSingle(":a", "a", Str(":b"));
    SubstituteAfter("", "a", "", Str(":b"));
    SubstitutedSingle(":b", "b", Str("x"));
    SubstituteAfter("", "b", "", Str("x"));
    assert [("a", Str(":b"))] + [("b", Str("x"))] == [("a", Str(":b")), ("b", Str("x"))];
  }

  /** The same two entries in the other order leave the second placeholder in the url. */
  lemma ReorderedExample()
    ensures Substituted(":a", [("b", Str("x")), ("a", Str(":b"))]) == ":b"
  {
    SubstitutedAppend(":a", [("b", Str("x"))], [("a", Str(":b"))]);
    SubstitutedSingle(":a", "b", Str("x"));
    SubstituteOtherKey("a", "b", Str("x"));
    SubstitutedSingle(":a", "a", Str(":b"));
    SubstituteAfter("", "a", "", Str(":b"));
    assert [("b", Str("x"))] + [("a", Str(":b"))] == [("b", Str("x")), ("a", Str(":b"))];
  }
}
