/** The Haxe `trace` shim: `formatOutput` builds the line shown for a
    trace call, and `trace` appends it to the engine's debug texts. */
module HaxeLog {

  import opened Wrappers
  import opened Decimal
  import opened Citro

  /** `haxe.PosInfos`: where a trace call was made and any extra arguments. */
  datatype PosInfos = PosInfos(fileName: string, lineNumber: int, customParams: Option<seq<string>>)

  /** What the loop at line 27 has accumulated after the parameters `ps`:
      `", " + p` for each of them, in order. */
  function ParamsSuffix(ps: seq<string>): string
    decreases |ps|
  {
    if ps == [] then "" else ParamsSuffix(ps[..|ps| - 1]) + (", " + ps[|ps| - 1])
  }

  /** The suffix for an optional parameter list: empty when it is absent. */
  function OptionalSuffix(params: Option<seq<string>>): string {
    match params
    case None => ""
    case Some(ps) => ParamsSuffix(ps)
  }

  /** `file:line: ` for a call site. */
  function Header(info: PosInfos): string {
    info.fileName + ":" + IntToString(info.lineNumber) + ": "
  }

  /** `haxe::Log::formatOutput`. */
  function FormatOutput(v: string, infos: Option<PosInfos>): (r: string)
    ensures infos.None? ==> r == v
    ensures infos.Some? ==> |r| >= |infos.value.fileName| + 4 + |v|
  {
    match infos
    case None => v
    case Some(info) => Header(info) + v + OptionalSuffix(info.customParams)
  }

  /** `formatOutput` as the C++ computes it, accumulating `extra` in a loop. */
  method FormatOutputLoop(v: string, infos: Option<PosInfos>) returns (r: string)
    ensures r == FormatOutput(v, infos)
  {
    if infos.None? {
      return v;
    }
    var info := infos.value;
    var pstr := info.fileName + ":" + IntToString(info.lineNumber);
    var extra := "";
    if info.customParams.Some? {
      var g1 := info.customParams.value;
      for g := 0 to |g1|
        invariant extra == ParamsSuffix(g1[..g])
      {
        assert g1[..g + 1][..g] == g1[..g];
        extra := extra + (", " + g1[g]);
      }
      assert g1[..|g1|] == g1;
    }
    r := pstr + ": " + v + extra;
  }

  /** The scale `trace` gives every text, in both axes. */
  const TraceScale: real := 0.4

  /** The `trace` lambda: one new text at (1, 0), scaled by 0.4, holding the
      formatted line, pushed at the back of `citro.debugTexts`. */
  method Trace(citro: CitroInit, v: string, infos: Option<PosInfos>)
    modifies citro
    ensures |citro.debugTexts| == |old(citro.debugTexts)| + 1
    ensures citro.debugTexts[..|old(citro.debugTexts)|] == old(citro.debugTexts)
    ensures citro.debugTexts[|citro.debugTexts| - 1]
         == CitroText(1.0, 0.0, FormatOutput(v, infos), TraceScale, TraceScale)
  {
    var s := FormatOutputLoop(v, infos);
    // the text as it stands once its scale has been set
    var text := CitroText(1.0, 0.0, s, TraceScale, TraceScale);
    citro.debugTexts := citro.debugTexts + [text];
  }

  // ---------------------------------------------------------------------
  // Properties of the formatted line

  /** Without position info the message is returned as it is. */
  lemma FormatWithoutInfos(v: string)
    ensures FormatOutput(v, None) == v
  {
  }

  /** With position info and no custom parameters: `file:line: v`. */
  lemma FormatWithoutParams(v: string, fileName: string, lineNumber: int)
    ensures FormatOutput(v, Some(PosInfos(fileName, lineNumber, None)))
         == fileName + ":" + IntToString(lineNumber) + ": " + v
  {
  }

  /** A present but empty parameter list formats like an absent one. */
  lemma EmptyParamsLikeAbsent(v: string, fileName: string, lineNumber: int)
    ensures FormatOutput(v, Some(PosInfos(fileName, lineNumber, Some([]))))
         == FormatOutput(v, Some(PosInfos(fileName, lineNumber, None)))
  {
  }

  /** Reference reading of the suffix, element 0 first. */
  function JoinedParams(ps: seq<string>): string
    decreases |ps|
  {
    if ps == [] then "" else ", " + ps[0] + JoinedParams(ps[1..])
  }

  /** The suffix of several parameter lists is the suffixes in turn. */
  lemma {:induction false} ParamsSuffixAppend(a: seq<string>, b: seq<string>)
    ensures ParamsSuffix(a + b) == ParamsSuffix(a) + ParamsSuffix(b)
    decreases |b|
  {
    if b != [] {
      var b' := b[..|b| - 1];
      assert (a + b)[..|a + b| - 1] == a + b';
      ParamsSuffixAppend(a, b');
    } else {
      assert a + b == a;
    }
  }

  /** The loop's suffix is `", " + p` for each parameter in index order. */
  lemma {:induction false} ParamsSuffixInOrder(ps: seq<string>)
    ensures ParamsSuffix(ps) == JoinedParams(ps)
    decreases |ps|
  {
    if ps != [] {
      ParamsSuffixInOrder(ps[1..]);
      ParamsSuffixAppend([ps[0]], ps[1..]);
      assert [ps[0]] + ps[1..] == ps;
      assert ParamsSuffix([ps[0]]) == ", " + ps[0] by {
        assert [ps[0]][..0] == [];
      }
    }
  }

  /** Total length of the suffix: two characters plus the parameter, per parameter. */
  function ParamsLength(ps: seq<string>): nat
    decreases |ps|
  {
    if ps == [] then 0 else 2 + |ps[0]| + ParamsLength(ps[1..])
  }

  lemma {:induction false} JoinedParamsLength(ps: seq<string>)
    ensures |JoinedParams(ps)| == ParamsLength(ps)
    decreases |ps|
  {
    if ps != [] {
      JoinedParamsLength(ps[1..]);
    }
  }

  /** The length of a formatted line with position info. */
  lemma FormatLength(v: string, info: PosInfos)
    ensures |FormatOutput(v, Some(info))|
         == |info.fileName| + 1 + |IntToString(info.lineNumber)| + 2 + |v|
            + (if info.customParams.Some? then ParamsLength(info.customParams.value) else 0)
  {
    if info.customParams.Some? {
      ParamsSuffixInOrder(info.customParams.value);
      JoinedParamsLength(info.customParams.value);
    }
  }

  lemma SliceMiddle(a: string, b: string, c: string)
    ensures (a + b + c)[|a|..|a| + |b|] == b
  {
  }

  /** The suffix splits around parameter `k`. */
  lemma ParamsSuffixAround(ps: seq<string>, k: nat)
    requires k < |ps|
    ensures ParamsSuffix(ps) == ParamsSuffix(ps[..k]) + (", " + ps[k]) + ParamsSuffix(ps[k + 1..])
  {
    var pre, post := ps[..k], ps[k + 1..];
    var upto := pre + [ps[k]];
    SplitAt(ps, k);
    calc {
      ParamsSuffix(ps);
      { ParamsSuffixAppend(upto, post); }
      ParamsSuffix(upto) + ParamsSuffix(post);
      { ParamsSuffixAppend(pre, [ps[k]]); SingleParamSuffix(ps[k]); }
      ParamsSuffix(pre) + (", " + ps[k]) + ParamsSuffix(post);
    }
  }

  lemma SplitAt(ps: seq<string>, k: nat)
    requires k < |ps|
    ensures ps[..k] + [ps[k]] + ps[k + 1..] == ps
  {
  }

  lemma SingleParamSuffix(p: string)
    ensures ParamsSuffix([p]) == ", " + p
  {
    assert [p][..0] == [];
  }

  /** Parameter `k` appears as `", " + ps[k]` right after the message and
      the parameters before it. */
  lemma ParamAt(v: string, info: PosInfos, k: nat)
    requires info.customParams.Some? && k < |info.customParams.value|
    ensures var ps := info.customParams.value;
            var r := FormatOutput(v, Some(info));
            var start := |Header(info)| + |v| + |ParamsSuffix(ps[..k])|;
            start + 2 + |ps[k]| <= |r| && r[start..start + 2 + |ps[k]|] == ", " + ps[k]
  {
    var ps := info.customParams.value;
    var mid := ", " + ps[k];
    ParamsSuffixAround(ps, k);
    var head := Header(info) + v + ParamsSuffix(ps[..k]);
    var tail := ParamsSuffix(ps[k + 1..]);
    assert FormatOutput(v, Some(info)) == head + mid + tail;
    SliceMiddle(head, mid, tail);
  }

  // ---------------------------------------------------------------------
  // The formatted line loses no information

  /** Under the same position info, different messages give different lines. */
  lemma MessageRecoverable(v1: string, v2: string, infos: Option<PosInfos>)
    requires FormatOutput(v1, infos) == FormatOutput(v2, infos)
    ensures v1 == v2
  {
    if infos.Some? {
      var h := Header(infos.value);
      var s := OptionalSuffix(infos.value.customParams);
      var r := FormatOutput(v1, infos);
      assert r == h + v1 + s;
      assert r == h + v2 + s;
      assert v1 == r[|h|..|r| - |s|];
      assert v2 == r[|h|..|r| - |s|];
    }
  }

  /** If `x + ":"` and `y + ":"` both begin `r`, and neither `x` nor `y`
      contains ':', then `x == y`. */
  lemma ColonDelimited(x: string, y: string, r: string)
    requires |x| < |r| && r[..|x| + 1] == x + ":"
    requires |y| < |r| && r[..|y| + 1] == y + ":"
    requires forall k :: 0 <= k < |x| ==> x[k] != ':'
    requires forall k :: 0 <= k < |y| ==> y[k] != ':'
    ensures x == y
  {
    assert forall k :: 0 <= k < |x| ==> r[k] == x[k] != ':';
    assert forall k :: 0 <= k < |y| ==> r[k] == y[k] != ':';
    assert r[|x|] == ':' && r[|y|] == ':';
    assert x == r[..|x|];
    assert y == r[..|y|];
  }

  /** After `fileName:` the line begins with the rendered line number and a ':'. */
  lemma LineNumberThenColon(v: string, info: PosInfos)
    ensures var r := FormatOutput(v, Some(info));
            var l := IntToString(info.lineNumber);
            var rest := r[|info.fileName| + 1..];
            |l| < |rest| && rest[..|l| + 1] == l + ":"
  {
    var a := info.fileName + ":";
    var b := IntToString(info.lineNumber) + ":";
    var c := " " + v + OptionalSuffix(info.customParams);
    assert FormatOutput(v, Some(info)) == a + b + c;
    PrefixAfter(a, b, c);
  }

  lemma PrefixAfter(a: string, b: string, c: string)
    ensures (a + b + c)[|a|..][..|b|] == b
  {
    assert (a + b + c)[|a|..] == b + c;
  }

  /** With the same file name, the line number can be read back from the line. */
  lemma LineNumberRecoverable(v1: string, v2: string, info1: PosInfos, info2: PosInfos)
    requires info1.fileName == info2.fileName
    requires FormatOutput(v1, Some(info1)) == FormatOutput(v2, Some(info2))
    ensures info1.lineNumber == info2.lineNumber
  {
    var r := FormatOutput(v1, Some(info1));
    var rest := r[|info1.fileName| + 1..];
    LineNumberThenColon(v1, info1);
    LineNumberThenColon(v2, info2);
    ColonDelimited(IntToString(info1.lineNumber), IntToString(info2.lineNumber), rest);
    IntToStringInjective(info1.lineNumber, info2.lineNumber);
  }

  /** Across different parameter lists the message cannot be told apart
      from the parameters, which is why `MessageRecoverable` fixes the
      position info. */
  lemma MessageParamsCollide()
    ensures FormatOutput("x, y", Some(PosInfos("a", 1, None)))
         == FormatOutput("x", Some(PosInfos("a", 1, Some(["y"]))))
  {
    assert IntToString(1) == "1";
  }

  /** Across different file names the line number cannot be read back,
      which is why `LineNumberRecoverable` fixes the file name. */
  lemma FileNameLineCollide()
    ensures FormatOutput("v", Some(PosInfos("a:1: x", 2, None)))
         == FormatOutput("x:2: v", Some(PosInfos("a", 1, None)))
  {
    assert IntToString(1) == "1";
    assert IntToString(2) == "2";
  }

  // ---------------------------------------------------------------------
  // Worked examples

  lemma ExampleNoInfos()
    ensures FormatOutput("hello", None) == "hello"
  {
  }

  lemma ExampleNoParams()
    ensures FormatOutput("42", Some(PosInfos("main.hx", 10, None))) == "main.hx:10: 42"
  {
  }

  lemma ExampleTwoParams()
    ensures FormatOutput("x", Some(PosInfos("a.hx", 1, Some(["y", "z"])))) == "a.hx:1: x, y, z"
  {
    assert IntToString(1) == "1";
    ParamsSuffixInOrder(["y", "z"]);
  }
}
