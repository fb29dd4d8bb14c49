/**
 * Conversion of the variable bindings extracted by the path matcher into a
 * flat query-parameter string: each binding becomes its field path joined
 * with `.`, then `=`, then its value, and the bindings are joined with `&`.
 * Segments and values are copied as they are, without any escaping.
 */
module VariableBindingUtils {
  import opened Wrappers
  import opened Strings
  import opened PathMatcher

  /** Between the components of one field path. */
  const PathSeparator: char := '.'
  /** Between a field path and its value. */
  const ValueSeparator: char := '='
  /** Between two bindings. */
  const BindingSeparator: char := '&'

  /** One `field.path=value` pair. */
  function Render(b: VariableBinding): string
  {
    Join(b.fieldPath, PathSeparator) + [ValueSeparator] + b.value
  }

  /** The rendering of every binding, in input order. */
  function RenderAll(bindings: seq<VariableBinding>): (r: seq<string>)
    ensures |r| == |bindings|
    ensures forall i :: 0 <= i < |bindings| ==> r[i] == Render(bindings[i])
  {
    if |bindings| == 0 then [] else [Render(bindings[0])] + RenderAll(bindings[1..])
  }

  /** The query-parameter string for `bindings`; empty exactly when there is no binding. */
  function Serialise(bindings: seq<VariableBinding>): (r: string)
    ensures r == "" <==> bindings == []
  {
    Join(RenderAll(bindings), BindingSeparator)
  }

  /**
   * The serialiser as the source writes it: one string that an outer loop
   * over the bindings and an inner loop over each field path append to.
   */
  method VariableBindingsToQueryParameters(variableBindings: seq<VariableBinding>)
    returns (queryParams: string)
    ensures queryParams == Serialise(variableBindings)
  {
    ghost var rendered := RenderAll(variableBindings);
    queryParams := "";
    for i := 0 to |variableBindings|
      invariant queryParams == JoinProgress(rendered, i, BindingSeparator)
    {
      var variableBinding := variableBindings[i];
      ghost var path := variableBinding.fieldPath;
      ghost var before := queryParams;
      for j := 0 to |variableBinding.fieldPath|
        invariant queryParams == before + JoinProgress(path, j, PathSeparator)
      {
        ghost var done := JoinProgress(path, j, PathSeparator);
        var segment := variableBinding.fieldPath[j];
        queryParams := queryParams + segment;
        ghost var separator: string := [];
        if j < |variableBinding.fieldPath| - 1 {
          queryParams := queryParams + [PathSeparator];
          separator := [PathSeparator];
        }
        AppendThree(before, done, segment, separator);
        JoinProgressStep(path, j, PathSeparator);
      }
      JoinProgressDone(path, PathSeparator);
      queryParams := queryParams + [ValueSeparator];
      queryParams := queryParams + variableBinding.value;
      AppendThree(before, Join(path, PathSeparator), [ValueSeparator], variableBinding.value);
      assert rendered[i] == Render(variableBinding);
      ghost var separator: string := [];
      if i < |variableBindings| - 1 {
        queryParams := queryParams + [BindingSeparator];
        separator := [BindingSeparator];
      }
      assert queryParams == before + rendered[i] + separator;
      JoinProgressStep(rendered, i, BindingSeparator);
    }
    JoinProgressDone(rendered, BindingSeparator);
  }

  lemma {:induction false} RenderAllConcat(s: seq<VariableBinding>, t: seq<VariableBinding>)
    ensures RenderAll(s + t) == RenderAll(s) + RenderAll(t)
  {
    if |s| > 0 {
      assert (s + t)[0] == s[0];
      assert (s + t)[1..] == s[1..] + t;
      RenderAllConcat(s[1..], t);
    } else {
      assert s + t == t;
    }
  }

  /** Serialising two non-empty lists one after the other puts exactly one `&` between them. */
  lemma SerialiseConcat(s: seq<VariableBinding>, t: seq<VariableBinding>)
    requires |s| > 0 && |t| > 0
    ensures Serialise(s + t) == Serialise(s) + [BindingSeparator] + Serialise(t)
  {
    RenderAllConcat(s, t);
    JoinConcat(RenderAll(s), RenderAll(t), BindingSeparator);
  }

  /** A binding added after a non-empty list is rendered after one `&`. */
  lemma SerialiseAppend(s: seq<VariableBinding>, b: VariableBinding)
    requires |s| > 0
    ensures Serialise(s + [b]) == Serialise(s) + [BindingSeparator] + Render(b)
  {
    SerialiseConcat(s, [b]);
  }

  /** A single binding serialises to its own rendering, with no `&` around it. */
  lemma SerialiseSingle(b: VariableBinding)
    ensures Serialise([b]) == Render(b)
  {
  }

  /** A binding with an empty field path renders as `=` then its value. */
  lemma RenderEmptyPath(value: string)
    ensures Render(VariableBinding([], value)) == "=" + value
  {
  }

  /** The example documented with the function. */
  lemma DocumentedExample()
    ensures Serialise([VariableBinding(["foo", "bar"], "42"), VariableBinding(["a", "b", "c"], "xyz")])
         == "foo.bar=42&a.b.c=xyz"
  {
    var b0 := VariableBinding(["foo", "bar"], "42");
    var b1 := VariableBinding(["a", "b", "c"], "xyz");
    assert Join(["foo", "bar"], PathSeparator) == "foo.bar";
    assert Render(b0) == "foo.bar=42";
    assert Join(["b", "c"], PathSeparator) == "b.c";
    assert Join(["a", "b", "c"], PathSeparator) == "a.b.c";
    assert Render(b1) == "a.b.c=xyz";
    SerialiseAppend([b0], b1);
  }

  /** Values are not escaped: a value holding `&` and `=` reads like two bindings. */
  lemma NoEscaping()
    ensures Serialise([VariableBinding(["a"], "b&c=d")])
         == Serialise([VariableBinding(["a"], "b"), VariableBinding(["c"], "d")])
  {
    SerialiseAppend([VariableBinding(["a"], "b")], VariableBinding(["c"], "d"));
  }

  /** An empty field path and the path made of one empty segment render alike. */
  lemma EmptyPathLikeEmptySegment(value: string)
    ensures Render(VariableBinding([], value)) == Render(VariableBinding([""], value))
  {
  }

  // ---------------------------------------------------------------------
  // Lengths

  /** The characters one binding contributes: its segments, the dots between them, `=` and the value. */
  function BindingLength(b: VariableBinding): nat
  {
    SumLengths(b.fieldPath) + (if |b.fieldPath| == 0 then 0 else |b.fieldPath| - 1) + 1 + |b.value|
  }

  function TotalBindingLength(bindings: seq<VariableBinding>): nat
  {
    if |bindings| == 0 then 0 else BindingLength(bindings[0]) + TotalBindingLength(bindings[1..])
  }

  lemma {:induction false} RenderedLengths(bindings: seq<VariableBinding>)
    ensures SumLengths(RenderAll(bindings)) == TotalBindingLength(bindings)
  {
    if |bindings| > 0 {
      RenderedLengths(bindings[1..]);
      assert RenderAll(bindings)[1..] == RenderAll(bindings[1..]);
    }
  }

  /** The output holds each binding's characters and one `&` between each two bindings. */
  lemma SerialiseLength(bindings: seq<VariableBinding>)
    ensures |Serialise(bindings)|
         == TotalBindingLength(bindings) + (if |bindings| == 0 then 0 else |bindings| - 1)
  {
    RenderedLengths(bindings);
  }

  // ---------------------------------------------------------------------
  // Order and verbatim copying

  /** Where the rendering of the `i`-th binding starts in the output. */
  function BindingOffset(bindings: seq<VariableBinding>, i: nat): nat
    requires i < |bindings|
  {
    JoinOffset(RenderAll(bindings), i)
  }

  /** Where the value of `b` starts in its rendering. */
  function ValueOffset(b: VariableBinding): nat
  {
    |Join(b.fieldPath, PathSeparator)| + 1
  }

  /** Each segment occurs verbatim in the rendering, `=` follows the field path and the value ends it. */
  lemma RenderParts(b: VariableBinding)
    ensures ValueOffset(b) <= |Render(b)|
    ensures Render(b)[ValueOffset(b) - 1] == ValueSeparator
    ensures Render(b)[ValueOffset(b)..] == b.value
    ensures forall j :: 0 <= j < |b.fieldPath| ==>
      && JoinOffset(b.fieldPath, j) + |b.fieldPath[j]| < ValueOffset(b)
      && Render(b)[JoinOffset(b.fieldPath, j)..JoinOffset(b.fieldPath, j) + |b.fieldPath[j]|] == b.fieldPath[j]
  {
    var lhs := Join(b.fieldPath, PathSeparator);
    var r := Render(b);
    assert r == lhs + ([ValueSeparator] + b.value);
    forall j | 0 <= j < |b.fieldPath|
      ensures JoinOffset(b.fieldPath, j) + |b.fieldPath[j]| < ValueOffset(b)
      ensures r[JoinOffset(b.fieldPath, j)..JoinOffset(b.fieldPath, j) + |b.fieldPath[j]|] == b.fieldPath[j]
    {
      JoinAt(b.fieldPath, j, PathSeparator);
    }
  }

  /** The rendering of the `i`-th binding occurs verbatim after those before it, followed
      by `&` unless it is the last. */
  lemma BindingInOutput(bindings: seq<VariableBinding>, i: nat)
    requires i < |bindings|
    ensures BindingOffset(bindings, i) + |Render(bindings[i])| <= |Serialise(bindings)|
    ensures Serialise(bindings)[BindingOffset(bindings, i)..BindingOffset(bindings, i) + |Render(bindings[i])|]
         == Render(bindings[i])
    ensures i + 1 < |bindings| ==>
      (BindingOffset(bindings, i) + |Render(bindings[i])| < |Serialise(bindings)| &&
       Serialise(bindings)[BindingOffset(bindings, i) + |Render(bindings[i])|] == BindingSeparator)
  {
    var rendered := RenderAll(bindings);
    assert rendered[i] == Render(bindings[i]);
    assert Serialise(bindings) == Join(rendered, BindingSeparator);
    JoinAt(rendered, i, BindingSeparator);
  }

  /** The `j`-th segment of the `i`-th binding occurs verbatim in the output. */
  lemma SegmentInOutput(bindings: seq<VariableBinding>, i: nat, j: nat)
    requires i < |bindings| && j < |bindings[i].fieldPath|
    ensures var o := BindingOffset(bindings, i) + JoinOffset(bindings[i].fieldPath, j);
      && o + |bindings[i].fieldPath[j]| <= |Serialise(bindings)|
      && Serialise(bindings)[o..o + |bindings[i].fieldPath[j]|] == bindings[i].fieldPath[j]
  {
    var b, out, x := bindings[i], Serialise(bindings), BindingOffset(bindings, i);
    BindingInOutput(bindings, i);
    RenderParts(b);
    var p := JoinOffset(b.fieldPath, j);
    SliceOfSlice(out, x, x + |Render(b)|, p, p + |b.fieldPath[j]|);
  }

  /** The value of the `i`-th binding occurs verbatim in the output, right after its `=`. */
  lemma ValueInOutput(bindings: seq<VariableBinding>, i: nat)
    requires i < |bindings|
    ensures var o, b := BindingOffset(bindings, i), bindings[i];
      && o + ValueOffset(b) + |b.value| <= |Serialise(bindings)|
      && Serialise(bindings)[o + ValueOffset(b) - 1] == ValueSeparator
      && Serialise(bindings)[o + ValueOffset(b)..o + ValueOffset(b) + |b.value|] == b.value
  {
    var b, out, x := bindings[i], Serialise(bindings), BindingOffset(bindings, i);
    var r := Render(b);
    BindingInOutput(bindings, i);
    RenderParts(b);
    assert |r| == ValueOffset(b) + |b.value|;
    SliceOfSlice(out, x, x + |r|, ValueOffset(b), |r|);
    assert out[x + ValueOffset(b) - 1] == out[x..x + |r|][ValueOffset(b) - 1];
  }

  // ---------------------------------------------------------------------
  // The inverse: reading a query-parameter string back into bindings

  /** A piece `lhs=value`, cut at its first `=`, with `lhs` split at every dot; none without `=`. */
  function ParseBinding(piece: string): Option<VariableBinding>
  {
    if ValueSeparator in piece then
      var k := FirstIndex(piece, ValueSeparator);
      Some(VariableBinding(Split(piece[..k], PathSeparator), piece[k + 1..]))
    else None
  }

  function ParseAll(pieces: seq<string>): Option<seq<VariableBinding>>
  {
    if |pieces| == 0 then Some([])
    else
      match ParseBinding(pieces[0])
      case None => None
      case Some(b) =>
        match ParseAll(pieces[1..])
        case None => None
        case Some(rest) => Some([b] + rest)
  }

  /** The bindings a query-parameter string stands for; none if some `&`-piece lacks `=`. */
  function Parse(query: string): Option<seq<VariableBinding>>
  {
    if query == "" then Some([]) else ParseAll(Split(query, BindingSeparator))
  }

  /** A binding whose rendering reads back on its own: a non-empty field path whose
      segments hold neither `.` nor `=`. The path must be non-empty because the empty
      path renders like `[""]` (`EmptyPathLikeEmptySegment`). */
  predicate PlainPath(b: VariableBinding)
  {
    && |b.fieldPath| > 0
    && (forall j :: 0 <= j < |b.fieldPath| ==>
          PathSeparator !in b.fieldPath[j] && ValueSeparator !in b.fieldPath[j])
  }

  /** A binding that also survives the round trip inside a list: in addition, no `&` in
      its segments or its value. */
  predicate Plain(b: VariableBinding)
  {
    && PlainPath(b)
    && (forall j :: 0 <= j < |b.fieldPath| ==> BindingSeparator !in b.fieldPath[j])
    && BindingSeparator !in b.value
  }

  lemma ParseRender(b: VariableBinding)
    requires PlainPath(b)
    ensures ParseBinding(Render(b)) == Some(b)
  {
    var lhs := Join(b.fieldPath, PathSeparator);
    var piece := Render(b);
    JoinExcludes(b.fieldPath, PathSeparator, ValueSeparator);
    assert piece[|lhs|] == ValueSeparator;
    var k := FirstIndex(piece, ValueSeparator);
    assert k == |lhs|;
    assert piece[..k] == lhs;
    assert piece[k + 1..] == b.value;
    SplitJoin(b.fieldPath, PathSeparator);
  }

  lemma RenderParse(piece: string, b: VariableBinding)
    requires ParseBinding(piece) == Some(b)
    ensures Render(b) == piece
  {
    var k := FirstIndex(piece, ValueSeparator);
    JoinSplit(piece[..k], PathSeparator);
    assert piece == piece[..k] + [ValueSeparator] + piece[k + 1..];
  }

  lemma {:induction false} ParseAllRenderAll(bindings: seq<VariableBinding>)
    requires forall i :: 0 <= i < |bindings| ==> Plain(bindings[i])
    ensures ParseAll(RenderAll(bindings)) == Some(bindings)
  {
    if |bindings| > 0 {
      ParseRender(bindings[0]);
      ParseAllRenderAll(bindings[1..]);
      assert RenderAll(bindings)[1..] == RenderAll(bindings[1..]);
      assert bindings == [bindings[0]] + bindings[1..];
    }
  }

  lemma {:induction false} RenderAllParseAll(pieces: seq<string>, bindings: seq<VariableBinding>)
    requires ParseAll(pieces) == Some(bindings)
    ensures RenderAll(bindings) == pieces
  {
    if |pieces| > 0 {
      var b := ParseBinding(pieces[0]).value;
      var rest := ParseAll(pieces[1..]).value;
      assert bindings == [b] + rest;
      RenderParse(pieces[0], b);
      RenderAllParseAll(pieces[1..], rest);
      assert bindings[1..] == rest;
      assert pieces == [pieces[0]] + pieces[1..];
    }
  }

  /** Plain bindings are read back exactly from their serialisation. */
  lemma ParseSerialise(bindings: seq<VariableBinding>)
    requires forall i :: 0 <= i < |bindings| ==> Plain(bindings[i])
    ensures Parse(Serialise(bindings)) == Some(bindings)
  {
    if |bindings| > 0 {
      var rendered := RenderAll(bindings);
      forall i | 0 <= i < |rendered| ensures BindingSeparator !in rendered[i] {
        var b := bindings[i];
        JoinExcludes(b.fieldPath, PathSeparator, BindingSeparator);
      }
      SplitJoin(rendered, BindingSeparator);
      ParseAllRenderAll(bindings);
    }
  }

  /** Every string that reads as bindings is exactly their serialisation. */
  lemma SerialiseParse(query: string, bindings: seq<VariableBinding>)
    requires Parse(query) == Some(bindings)
    ensures Serialise(bindings) == query
  {
    if query != "" {
      RenderAllParseAll(Split(query, BindingSeparator), bindings);
      JoinSplit(query, BindingSeparator);
    }
  }
}
