# Haxe `trace` shim for the Citro engine

This project models `haxe::Log`, the `trace` implementation that the Haxe-to-C++
output of Haxe3DS/CitroEngine links against (`assets/src/haxe_Log.cpp`).

- `formatOutput(v, infos)` returns the message `v` unchanged when there is no
  position info. Otherwise it returns `fileName:lineNumber: v`, followed by
  `, p` for each custom parameter `p`, in order.
  - `HaxeLog.FormatOutput` is the specification.
  - `HaxeLog.FormatOutputLoop` is the C++ algorithm. It accumulates `extra` in a
    `for` loop over the parameters, and it is proved equal to the specification.
- `trace(v, infos)` creates one text object at (1, 0) with scale 0.4 in both
  axes. The text holds the formatted line. `trace` pushes it onto the back of the
  engine's global `CitroInit::debugTexts`.
  - `Citro.CitroInit` is the holder of that list. Its `debugTexts` field is a
    `seq` of `Citro.CitroText` records.
  - `HaxeLog.Trace` appends exactly one record and leaves the earlier ones in place.
- `std::to_string(int)` is `Decimal.IntToString`. `Decimal.ParseInt` is its
  inverse. It serves to prove that the rendered line number loses no information.

Modules: `Wrappers` (the `Option` type that stands for `std::optional`),
`Decimal`, `Citro`, `HaxeLog`.

## Model

| member | source | states |
|---|---|---|
| HaxeLog.FormatOutput | assets/src/haxe_Log.cpp:20-31 | with no position info the result is the message itself; with position info it is at least len(fileName) + len(v) + 4 long: three separator characters and at least one digit |
| HaxeLog.FormatOutputLoop | assets/src/haxe_Log.cpp:20-31 | the accumulating loop over the custom parameters computes exactly the specified line, for every input |
| HaxeLog.FormatWithoutInfos | assets/src/haxe_Log.cpp:21 | absent position info: the output is the input message exactly |
| HaxeLog.FormatWithoutParams | assets/src/haxe_Log.cpp:23-30 | position info without custom parameters: the output is `fileName + ":" + to_string(lineNumber) + ": " + v` |
| HaxeLog.EmptyParamsLikeAbsent | assets/src/haxe_Log.cpp:24-28 | a present but empty parameter list gives the same line as an absent one |
| HaxeLog.ParamsSuffixAppend | assets/src/haxe_Log.cpp:27 | the suffix the loop builds for two parameter lists in turn is the two suffixes concatenated |
| HaxeLog.ParamsSuffixInOrder | assets/src/haxe_Log.cpp:27 | the loop's suffix equals `", " + p[0] + ", " + p[1] + …`, taking the parameters in index order 0..size-1 |
| HaxeLog.JoinedParamsLength | assets/src/haxe_Log.cpp:27 | the parameter suffix has length Σ(2 + len(pᵢ)) |
| HaxeLog.FormatLength | assets/src/haxe_Log.cpp:23-30 | with position info, the output length is len(fileName) + 1 + len(to_string(lineNumber)) + 2 + len(v) + Σ(2 + len(pᵢ)) |
| HaxeLog.ParamAt | assets/src/haxe_Log.cpp:27-30 | parameter k appears as `", " + p[k]` right after the header, the message and the parameters before it |
| HaxeLog.MessageRecoverable | assets/src/haxe_Log.cpp:20-31 | under the same position info, two different messages always give two different lines |
| HaxeLog.LineNumberRecoverable | assets/src/haxe_Log.cpp:23 | for the same file name, two lines that are equal come from the same line number |
| HaxeLog.MessageParamsCollide | assets/src/haxe_Log.cpp:23-30 | the message `"x, y"` without parameters gives the same line as the message `"x"` with the parameter `"y"`, so the message is recoverable only under fixed position info |
| HaxeLog.FileNameLineCollide | assets/src/haxe_Log.cpp:23-30 | file `"a:1: x"`, line 2, message `"v"` gives the same line as file `"a"`, line 1, message `"x:2: v"`, so the line number is recoverable only under a fixed file name |
| HaxeLog.ColonDelimited | assets/src/haxe_Log.cpp:23 | the ':' written after the line number ends it, because no rendered number contains ':' |
| HaxeLog.ExampleNoInfos | assets/src/haxe_Log.cpp:21 | `formatOutput("hello", none)` is `"hello"` |
| HaxeLog.ExampleNoParams | assets/src/haxe_Log.cpp:23-30 | `formatOutput("42", {main.hx, 10})` is `"main.hx:10: 42"` |
| HaxeLog.ExampleTwoParams | assets/src/haxe_Log.cpp:23-30 | `formatOutput("x", {a.hx, 1, [y, z]})` is `"a.hx:1: x, y, z"` |
| HaxeLog.Trace | assets/src/haxe_Log.cpp:14-18 | `debugTexts` grows by exactly one. Every earlier entry is unchanged and in place. The new, last entry is at (1, 0), has scale 0.4 in both axes and holds `formatOutput(v, infos)` |
| Decimal.NatToString | assets/src/haxe_Log.cpp:23 | the digits of a natural number are a non-empty run of decimal digits, with a leading '0' only for zero, and zero is exactly `"0"` |
| Decimal.IntToString | assets/src/haxe_Log.cpp:23 | `std::to_string` of an int is a decimal literal that starts with '-' exactly for negative numbers, has no '0' right after the '-', and contains no ':' |
| Decimal.ParseNatToString | assets/src/haxe_Log.cpp:23 | parsing the digits of n gives back n |
| Decimal.IntToStringRoundTrip | assets/src/haxe_Log.cpp:23 | parsing `to_string(i)` gives back i |
| Decimal.IntToStringInjective | assets/src/haxe_Log.cpp:23 | different integers are rendered as different strings |

## Left out

- `haxe::DynamicToString` (lines 5, 14, 27): the conversion of arbitrary values to text belongs to another part of the runtime. The message and the custom parameters are modelled as strings that are already converted.
- Construction and rendering of `citro::object::CitroText` (line 15): the graphics library is not part of this model. A text is a record of its position, content and scale, as it stands after `scale->set(0.4, 0.4)` (line 16).
- Floating point: the position (1, 0) and the scale 0.4 are doubles in C++. They are modelled as exact reals, so the rounding of 0.4 to a double is not represented.
- A present `std::optional` that holds a null `shared_ptr` (lines 23-27) is undefined behaviour in C++. The `Option` type here cannot express it.
- The width of `lineNumber` is not modelled. Its declaration is not part of this model, and the decimal rendering is exact for every integer.
- The `(int)` cast of the parameter count in the loop header (line 27) would overflow beyond 2^31 - 1 parameters. That case is not modelled.
- `trace` is a replaceable `std::function` (line 14). Replacing it at run time is not modelled; `HaxeLog.Trace` is the default behaviour.
- The unused stack-trace include (line 6) has no behaviour.
- Citro.CitroInit.constructor: the engine sets up the static `CitroInit::debugTexts` in code that is not part of this model; the constructor only lets a `CitroInit` exist, and its empty start list is an assumption of the model, not a promise of the source. `HaxeLog.Trace` holds for any earlier list.
- The global `debugTexts` deque is modelled as a field of a `CitroInit` object passed to `Trace`. Its clearing and bounding are done elsewhere in the engine and are not part of this model. No concurrency is present.
- The scale passed to the default constructor of the text before `scale->set` is not modelled: the constructor is not part of this model, and `trace` overwrites the scale right away.
