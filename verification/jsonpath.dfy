/** `extractJSONField` and its two calling conventions `JsonField` and
    `MustJsonField`: a dotted path is split on `.` and walked one segment at
    a time through nested objects. */
module JsonPath {
  import opened Results
  import opened Values
  import opened GoStrings

  /** The four ways an extraction fails. */
  datatype JsonError =
    | InvalidJson(cause: string)
    | FieldNotFound(segment: string)
    | ArrayIndexingUnsupported
    | InvalidPath(segment: string)
  {
    /** The error text Go's `fmt.Errorf` produces. */
    function Message(): string {
      match this
      case InvalidJson(cause) => "invalid JSON: " + cause
      case FieldNotFound(seg) => "field " + seg + " not found"
      case ArrayIndexingUnsupported => "array indexing not supported yet"
      case InvalidPath(seg) => "invalid path: " + seg
    }
  }

  /** The JSON decoder (`json.Unmarshal` into an `interface{}`): the text's
      value tree, or the decoder's own error text. */
  type Parser = string -> Result<Value, string>

  const PathSeparator: char := '.'

  /** One traversal step: the current value must be an object holding
      `segment`; an array fails whatever the segment; any scalar fails naming
      the segment. */
  function Step(current: Value, segment: string): (r: Result<Value, JsonError>)
    ensures r.Ok? <==> current.Object? && segment in current.fields
    ensures r.Ok? ==> r.value == current.fields[segment]
    ensures r.Err? ==> (r.error == ArrayIndexingUnsupported <==> current.Array?)
    ensures r.Err? && !current.Array? ==>
      r == (if current.Object? then Err(FieldNotFound(segment)) else Err(InvalidPath(segment)))
  {
    match current
    case Object(fields) =>
      if segment in fields then Ok(fields[segment]) else Err(FieldNotFound(segment))
    case Array(_) => Err(ArrayIndexingUnsupported)
    case _ => Err(InvalidPath(segment))
  }

  /** The traversal loop: one `Step` per segment, stopping at the first
      failure. */
  function Walk(current: Value, segments: seq<string>): (r: Result<Value, JsonError>)
    ensures |segments| == 0 ==> r == Ok(current)
    ensures r.Err? ==> !r.error.InvalidJson?
    ensures r.Err? && !r.error.ArrayIndexingUnsupported? ==> r.error.segment in segments
    decreases |segments|
  {
    if |segments| == 0 then Ok(current)
    else
      match Step(current, segments[0])
      case Err(e) => Err(e)
      case Ok(next) => Walk(next, segments[1..])
  }

  /** `extractJSONField(jsonStr, path)`. */
  function ExtractField(parse: Parser, jsonText: string, path: string): (r: Result<Value, JsonError>)
    ensures parse(jsonText).Err? <==> r.Err? && r.error.InvalidJson?
    ensures parse(jsonText).Err? ==> r == Err(InvalidJson(parse(jsonText).error))
    ensures r.Err? && (r.error.FieldNotFound? || r.error.InvalidPath?) ==> r.error.segment in Split(path, PathSeparator)
  {
    match parse(jsonText)
    case Err(cause) => Err(InvalidJson(cause))
    case Ok(root) => Walk(root, Split(path, PathSeparator))
  }

  /** `JsonField`: the safe form, returning the extraction's value or error
      unchanged. */
  function JsonField(parse: Parser, jsonText: string, path: string): (r: Result<Value, JsonError>)
    ensures r == ExtractField(parse, jsonText, path)
  {
    match ExtractField(parse, jsonText, path)
    case Ok(v) => Ok(v)
    case Err(e) => Err(e)
  }

  /** `MustJsonField`: the aborting form. It returns the extracted value, and
      aborts the render exactly when the extraction fails, with the
      extraction's error in the panic message. */
  function MustJsonField(parse: Parser, jsonText: string, path: string): (r: Render<Value>)
    ensures r.Done? <==> ExtractField(parse, jsonText, path).Ok?
    ensures r.Done? ==> r.value == ExtractField(parse, jsonText, path).value
    ensures r.Abort? ==>
      r.message == "Error extracting JSON field: " + ExtractField(parse, jsonText, path).error.Message()
  {
    match ExtractField(parse, jsonText, path)
    case Ok(v) => Done(v)
    case Err(e) => Abort("Error extracting JSON field: " + e.Message())
  }

  // ---------------------------------------------------------------------
  // Properties of the traversal

  /** Walking `p + q` is walking `p`, then walking `q` from where `p` ended;
      an error on `p` is the error of the whole walk. */
  lemma {:induction false} WalkAppend(root: Value, p: seq<string>, q: seq<string>)
    ensures Walk(root, p + q) ==
      match Walk(root, p)
      case Err(e) => Err(e)
      case Ok(v) => Walk(v, q)
    decreases |p|
  {
    if |p| > 0 {
      assert (p + q)[0] == p[0];
      assert (p + q)[1..] == p[1..] + q;
      match Step(root, p[0])
      case Err(e) =>
        assert Walk(root, p + q) == Err(e);
      case Ok(next) =>
        WalkAppend(next, p[1..], q);
        assert Walk(root, p + q) == Walk(next, p[1..] + q);
    } else {
      assert p + q == q;
    }
  }

  /** The object nesting `{s0: {s1: ... {sn: leaf}}}`. */
  function Nest(segments: seq<string>, leaf: Value): Value
    decreases |segments|
  {
    if |segments| == 0 then leaf
    else Object(map[segments[0] := Nest(segments[1..], leaf)])
  }

  /** Walking a nesting along its own keys reaches its leaf. */
  lemma {:induction false} WalkNest(segments: seq<string>, leaf: Value)
    ensures Walk(Nest(segments, leaf), segments) == Ok(leaf)
    decreases |segments|
  {
    if |segments| > 0 {
      WalkNest(segments[1..], leaf);
    }
  }

  /** `k` is where the walk stops: the first `k` segments lead to a value on
      which the step for segment `k` fails with `e`. */
  ghost predicate FailsAt(root: Value, segments: seq<string>, k: int, e: JsonError) {
    && 0 <= k < |segments|
    && Walk(root, segments[..k]).Ok?
    && Step(Walk(root, segments[..k]).value, segments[k]) == Err(e)
  }

  /** Every segment, in turn, names a key of the object the previous
      segments reached. */
  ghost predicate ObjectChain(root: Value, segments: seq<string>) {
    forall k :: 0 <= k < |segments| ==>
      && Walk(root, segments[..k]).Ok?
      && Walk(root, segments[..k]).value.Object?
      && segments[k] in Walk(root, segments[..k]).value.fields
  }

  /** The walk fails with `e` exactly when some segment's step fails with
      `e` after all the earlier segments succeeded. */
  lemma {:induction false} WalkFailsIff(root: Value, segments: seq<string>, e: JsonError)
    ensures Walk(root, segments) == Err(e) <==> exists k :: FailsAt(root, segments, k, e)
    decreases |segments|
  {
    if |segments| == 0 {
      assert forall k :: !FailsAt(root, segments, k, e);
    } else {
      assert segments[..0] == [];
      match Step(root, segments[0])
      case Err(e0) =>
        if e0 == e {
          assert FailsAt(root, segments, 0, e);
        } else {
          forall k | FailsAt(root, segments, k, e) ensures false {
          }
        }
      case Ok(next) =>
        var tail := segments[1..];
        WalkFailsIff(next, tail, e);
        forall k | 0 <= k < |tail|
          ensures FailsAt(root, segments, k + 1, e) <==> FailsAt(next, tail, k, e)
        {
          WalkAppend(root, [segments[0]], tail[..k]);
          assert [segments[0]] + tail[..k] == segments[..k + 1];
          assert Walk(root, [segments[0]]) == Ok(next) by {
            assert [segments[0]][1..] == [];
          }
        }
        if exists k :: FailsAt(root, segments, k, e) {
          var k :| FailsAt(root, segments, k, e);
          assert k != 0;
          assert FailsAt(next, tail, k - 1, e);
        }
        if exists k :: FailsAt(next, tail, k, e) {
          var k :| FailsAt(next, tail, k, e);
          assert FailsAt(root, segments, k + 1, e);
        }
    }
  }

  /** The walk succeeds exactly when the segments form a chain of object
      keys, and then it yields the value under the last key. */
  lemma {:induction false} WalkSucceedsIff(root: Value, segments: seq<string>)
    requires |segments| >= 1
    ensures Walk(root, segments).Ok? <==> ObjectChain(root, segments)
    ensures Walk(root, segments).Ok? ==>
      var last := Walk(root, segments[..|segments| - 1]).value;
      last.Object? && Walk(root, segments).value == last.fields[segments[|segments| - 1]]
    decreases |segments|
  {
    var n := |segments|;
    if Walk(root, segments).Ok? {
      forall k | 0 <= k < n
        ensures Walk(root, segments[..k]).Ok?
        ensures Walk(root, segments[..k]).value.Object?
        ensures segments[k] in Walk(root, segments[..k]).value.fields
      {
        WalkAppend(root, segments[..k], segments[k..]);
        assert segments[..k] + segments[k..] == segments;
        WalkAppend(Walk(root, segments[..k]).value, [segments[k]], segments[k + 1..]);
        assert [segments[k]] + segments[k + 1..] == segments[k..];
        assert [segments[k]][1..] == [];
      }
    } else {
      var e := Walk(root, segments).error;
      WalkFailsIff(root, segments, e);
      var k :| FailsAt(root, segments, k, e);
    }
    if Walk(root, segments).Ok? {
      WalkAppend(root, segments[..n - 1], [segments[n - 1]]);
      assert segments[..n - 1] + [segments[n - 1]] == segments;
      assert [segments[n - 1]][1..] == [];
    }
  }

  // ---------------------------------------------------------------------
  // Properties of the extraction

  /** Text the decoder rejects fails as invalid JSON, before any traversal. */
  lemma ExtractInvalidJson(parse: Parser, jsonText: string, path: string)
    requires parse(jsonText).Err?
    ensures ExtractField(parse, jsonText, path) == Err(InvalidJson(parse(jsonText).error))
  {
  }

  /** When every segment names a key of the object reached so far, the
      extraction yields the value under the last key. */
  lemma {:induction false} ExtractFollowsKeys(parse: Parser, jsonText: string, path: string)
    requires parse(jsonText).Ok?
    requires ObjectChain(parse(jsonText).value, Split(path, PathSeparator))
    ensures
      var segs := Split(path, PathSeparator);
      var last := Walk(parse(jsonText).value, segs[..|segs| - 1]).value;
      ExtractField(parse, jsonText, path) == Ok(last.fields[segs[|segs| - 1]])
  {
    FollowKeysAlong(parse, jsonText, path, Split(path, PathSeparator));
  }

  lemma FollowKeysAlong(parse: Parser, jsonText: string, path: string, segs: seq<string>)
    requires parse(jsonText).Ok?
    requires segs == Split(path, PathSeparator)
    requires ObjectChain(parse(jsonText).value, segs)
    ensures
      var last := Walk(parse(jsonText).value, segs[..|segs| - 1]).value;
      ExtractField(parse, jsonText, path) == Ok(last.fields[segs[|segs| - 1]])
  {
    ChainLeadsToLastKey(parse(jsonText).value, segs);
    ExtractIsWalk(parse, jsonText, path);
  }

  lemma ExtractIsWalk(parse: Parser, jsonText: string, path: string)
    requires parse(jsonText).Ok?
    ensures ExtractField(parse, jsonText, path) == Walk(parse(jsonText).value, Split(path, PathSeparator))
  {
  }

  /** Along an object chain the walk yields the value under the last key. */
  lemma ChainLeadsToLastKey(root: Value, segs: seq<string>)
    requires |segs| >= 1 && ObjectChain(root, segs)
    ensures Walk(root, segs[..|segs| - 1]).Ok?
    ensures Walk(root, segs) ==
      Ok(Walk(root, segs[..|segs| - 1]).value.fields[segs[|segs| - 1]])
  {
    WalkSucceedsIff(root, segs);
  }

  /** A segment missing from the object reached so far fails naming exactly
      that segment. */
  lemma ExtractMissingField(parse: Parser, jsonText: string, path: string, k: nat)
    requires parse(jsonText).Ok?
    requires k < |Split(path, PathSeparator)|
    requires
      var segs := Split(path, PathSeparator);
      var reached := Walk(parse(jsonText).value, segs[..k]);
      reached.Ok? && reached.value.Object? && segs[k] !in reached.value.fields
    ensures ExtractField(parse, jsonText, path) == Err(FieldNotFound(Split(path, PathSeparator)[k]))
  {
    var segs := Split(path, PathSeparator);
    WalkFailsIff(parse(jsonText).value, segs, FieldNotFound(segs[k]));
    assert FailsAt(parse(jsonText).value, segs, k, FieldNotFound(segs[k]));
  }

  /** Reaching an array with a segment left fails with the fixed
      array-indexing error, whatever the segment says. */
  lemma ExtractThroughArray(parse: Parser, jsonText: string, path: string, k: nat)
    requires parse(jsonText).Ok?
    requires k < |Split(path, PathSeparator)|
    requires
      var reached := Walk(parse(jsonText).value, Split(path, PathSeparator)[..k]);
      reached.Ok? && reached.value.Array?
    ensures ExtractField(parse, jsonText, path) == Err(ArrayIndexingUnsupported)
  {
    var segs := Split(path, PathSeparator);
    WalkFailsIff(parse(jsonText).value, segs, ArrayIndexingUnsupported);
    assert FailsAt(parse(jsonText).value, segs, k, ArrayIndexingUnsupported);
  }

  /** Reaching a string, number, boolean or null with a segment left fails
      as an invalid path naming that segment. */
  lemma ExtractThroughScalar(parse: Parser, jsonText: string, path: string, k: nat)
    requires parse(jsonText).Ok?
    requires k < |Split(path, PathSeparator)|
    requires
      var reached := Walk(parse(jsonText).value, Split(path, PathSeparator)[..k]);
      reached.Ok? && reached.value.IsScalar()
    ensures ExtractField(parse, jsonText, path) == Err(InvalidPath(Split(path, PathSeparator)[k]))
  {
    var segs := Split(path, PathSeparator);
    WalkFailsIff(parse(jsonText).value, segs, InvalidPath(segs[k]));
    assert FailsAt(parse(jsonText).value, segs, k, InvalidPath(segs[k]));
  }

  /** Every failure of a well-formed document is located at one segment:
      the segment that was missing, met an array, or met a scalar. */
  lemma ExtractErrorLocated(parse: Parser, jsonText: string, path: string)
    requires parse(jsonText).Ok?
    requires ExtractField(parse, jsonText, path).Err?
    ensures exists k :: FailsAt(parse(jsonText).value, Split(path, PathSeparator), k,
                               ExtractField(parse, jsonText, path).error)
  {
    WalkFailsIff(parse(jsonText).value, Split(path, PathSeparator), ExtractField(parse, jsonText, path).error);
  }

  /** The path always has at least one segment, so a successful extraction
      went through the root object's key for the first segment; the root
      itself is never the answer. The empty path is the single key `""`. */
  lemma ExtractTakesAStep(parse: Parser, jsonText: string, path: string)
    requires ExtractField(parse, jsonText, path).Ok?
    ensures parse(jsonText).Ok? && parse(jsonText).value.Object?
    ensures Split(path, PathSeparator)[0] in parse(jsonText).value.fields
    ensures path == "" ==> ExtractField(parse, jsonText, path) == Ok(parse(jsonText).value.fields[""])
  {
    var segs := Split(path, PathSeparator);
    WalkSucceedsIff(parse(jsonText).value, segs);
    assert segs[..0] == [];
  }

  /** A dotted path `a.b` extracts what `b` extracts from the value at `a`. */
  lemma ExtractDottedPath(parse: Parser, jsonText: string, a: string, b: string)
    requires parse(jsonText).Ok?
    ensures ExtractField(parse, jsonText, a + [PathSeparator] + b) ==
      match ExtractField(parse, jsonText, a)
      case Err(e) => Err(e)
      case Ok(v) => Walk(v, Split(b, PathSeparator))
  {
    SplitConcat(a, PathSeparator, b);
    WalkAppend(parse(jsonText).value, Split(a, PathSeparator), Split(b, PathSeparator));
  }

  /** `{"a":{"b":1}}` gives `1` at `a.b` and fails naming `c` at `a.c`;
      `{"a":[1,2]}` fails at `a.0` because arrays cannot be indexed. */
  lemma ExtractExamples(parse: Parser, nested: string, withArray: string)
    requires parse(nested) == Ok(Object(map["a" := Object(map["b" := Number("1")])]))
    requires parse(withArray) == Ok(Object(map["a" := Array([Number("1"), Number("2")])]))
    ensures ExtractField(parse, nested, "a.b") == Ok(Number("1"))
    ensures ExtractField(parse, nested, "a.c") == Err(FieldNotFound("c"))
    ensures ExtractField(parse, withArray, "a.0") == Err(ArrayIndexingUnsupported)
  {
    DottedPair(parse, nested, "a", "b");
    DottedPair(parse, nested, "a", "c");
    DottedPair(parse, withArray, "a", "0");
    var inner := Object(map["b" := Number("1")]);
    assert Step(parse(nested).value, "a") == Ok(inner);
    assert Step(inner, "b") == Ok(Number("1"));
    assert Step(inner, "c") == Err(FieldNotFound("c"));
    assert Step(parse(withArray).value, "a") == Ok(Array([Number("1"), Number("2")]));
  }

  /** A two-segment path is walked as its two segments. */
  lemma DottedPair(parse: Parser, jsonText: string, a: string, b: string)
    requires PathSeparator !in a && PathSeparator !in b
    requires parse(jsonText).Ok?
    ensures ExtractField(parse, jsonText, a + [PathSeparator] + b) ==
      match Step(parse(jsonText).value, a)
      case Err(e) => Err(e)
      case Ok(v) => Step(v, b)
  {
    SplitJoin([a, b], PathSeparator);
    assert Join([a, b], PathSeparator) == a + [PathSeparator] + b by {
      assert [a, b][1..] == [b];
    }
    var root := parse(jsonText).value;
    assert [a, b][1..] == [b] && [b][1..] == [];
    match Step(root, a)
    case Err(e) =>
    case Ok(v) =>
      assert Walk(root, [a, b]) == Walk(v, [b]);
      match Step(v, b)
      case Err(e) =>
      case Ok(w) =>
        assert Walk(v, [b]) == Walk(w, []);
  }
}
