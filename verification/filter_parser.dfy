/** `CreateFilters` of src/filter_factory.cpp: the filter tokens of the
    command line, read left to right. Each operation name is followed by a
    fixed number of arguments; numbers are read by `ToInt`/`ToDouble`, which
    are parameters here. */
module FilterParser {
  import opened Errors
  import FloatFilters
  import Convolution

  /** A constructed filter of the factory. */
  datatype Filter =
    | Crop(crop: FloatFilters.CropFilter)
    | Grayscale
    | Negative
    | Sharpen
    | Edge(edge: Convolution.EdgeFilter)
    | Blur(blur: FloatFilters.BlurFilter)
    | Median(median: FloatFilters.MedianFilter)

  /** The operations the factory knows, one per filter kind. */
  datatype Op = CropOp | GrayscaleOp | NegativeOp | SharpenOp | EdgeOp | BlurOp | MedianOp

  /** The command-line name of an operation. */
  function Name(op: Op): string {
    match op
    case CropOp => "-crop"
    case GrayscaleOp => "-gs"
    case NegativeOp => "-neg"
    case SharpenOp => "-sharp"
    case EdgeOp => "-edge"
    case BlurOp => "-blur"
    case MedianOp => "-med"
  }

  /** The operation a token names; None for a name the factory does not know. */
  function Lookup(name: string): (op: Option<Op>)
    ensures op.Some? ==> Name(op.value) == name
  {
    if name == "-crop" then Some(CropOp)
    else if name == "-gs" then Some(GrayscaleOp)
    else if name == "-neg" then Some(NegativeOp)
    else if name == "-sharp" then Some(SharpenOp)
    else if name == "-edge" then Some(EdgeOp)
    else if name == "-blur" then Some(BlurOp)
    else if name == "-med" then Some(MedianOp)
    else None
  }

  /** Every operation is found under its own name. */
  lemma LookupName(op: Op)
    ensures Lookup(Name(op)) == Some(op)
  {
  }

  /** How many argument tokens follow an operation name. */
  function Arity(op: Op): (n: nat)
    ensures n <= 2
  {
    match op
    case CropOp => 2
    case GrayscaleOp | NegativeOp | SharpenOp => 0
    case EdgeOp | BlurOp | MedianOp => 1
  }

  /** The operation a filter is created by. */
  function OpOf(f: Filter): Op {
    match f
    case Crop(_) => CropOp
    case Grayscale => GrayscaleOp
    case Negative => NegativeOp
    case Sharpen => SharpenOp
    case Edge(_) => EdgeOp
    case Blur(_) => BlurOp
    case Median(_) => MedianOp
  }

  /** Tokens consumed by a filter: its name and its arguments. */
  function Width(f: Filter): nat {
    1 + Arity(OpOf(f))
  }

  function TokenCount(fs: seq<Filter>): nat {
    if |fs| == 0 then 0 else Width(fs[0]) + TokenCount(fs[1..])
  }

  /** `ToInt`: None when `stoi` rejects the text, overflows or leaves part of it. */
  function ParseInt(toInt: string -> Option<int>, s: string): (r: Result<int>)
    ensures r.Err? <==> toInt(s).None?
    ensures r.Err? ==> r.error == InvalidInteger(s)
    ensures r.Ok? ==> r.value == toInt(s).value
  {
    match toInt(s)
    case None => Err(InvalidInteger(s))
    case Some(v) => Ok(v)
  }

  /** `ToDouble`: None when `stod` rejects the text or leaves part of it. */
  function ParseReal(toReal: string -> Option<real>, s: string): (r: Result<real>)
    ensures r.Err? <==> toReal(s).None?
    ensures r.Err? ==> r.error == InvalidDouble(s)
    ensures r.Ok? ==> r.value == toReal(s).value
  {
    match toReal(s)
    case None => Err(InvalidDouble(s))
    case Some(v) => Ok(v)
  }

  /** The filter of operation op, from its argument tokens: numbers are
      read in order, then the constructor checks them. */
  function ParseOne(op: Op, args: seq<string>, toInt: string -> Option<int>, toReal: string -> Option<real>): (r: Result<Filter>)
    requires |args| == Arity(op)
    ensures r.Ok? ==> OpOf(r.value) == op && Accepted(r.value)
  {
    match op
    case CropOp =>
      var w :- ParseInt(toInt, args[0]);
      var h :- ParseInt(toInt, args[1]);
      var f :- FloatFilters.MakeCrop(w, h);
      Ok(Crop(f))
    case GrayscaleOp => Ok(Grayscale)
    case NegativeOp => Ok(Negative)
    case SharpenOp => Ok(Sharpen)
    case EdgeOp =>
      var t :- ParseReal(toReal, args[0]);
      Ok(Edge(Convolution.EdgeFilter(t)))
    case BlurOp =>
      var sigma :- ParseReal(toReal, args[0]);
      var f :- FloatFilters.MakeBlur(sigma);
      Ok(Blur(f))
    case MedianOp =>
      var window :- ParseInt(toInt, args[0]);
      var f :- FloatFilters.MakeMedian(window);
      Ok(Median(f))
  }

  /** The `while (i < argc)` loop over the remaining tokens. */
  function Parse(tokens: seq<string>, toInt: string -> Option<int>, toReal: string -> Option<real>): (r: Result<seq<Filter>>)
    ensures |tokens| == 0 ==> r == Ok([])
    ensures |tokens| > 0 && Lookup(tokens[0]).None? ==> r == Err(UnknownFilter(tokens[0]))
    ensures |tokens| > 0 && Lookup(tokens[0]).Some? && |tokens| <= Arity(Lookup(tokens[0]).value) ==>
      r == Err(MissingArgument(tokens[0]))
    ensures r.Ok? ==> TokenCount(r.value) == |tokens|
    ensures r.Ok? && |tokens| > 0 ==> |r.value| > 0 && Name(OpOf(r.value[0])) == tokens[0]
    ensures r.Ok? ==> forall i :: 0 <= i < |r.value| ==> Accepted(r.value[i])
    decreases |tokens|
  {
    if |tokens| == 0 then Ok([])
    else
      match Lookup(tokens[0])
      case None => Err(UnknownFilter(tokens[0]))
      case Some(op) =>
        var n := Arity(op);
        if n >= |tokens| then Err(MissingArgument(tokens[0]))
        else
          var f :- ParseOne(op, tokens[1..n + 1], toInt, toReal);
          var rest :- Parse(tokens[n + 1..], toInt, toReal);
          Ok([f] + rest)
  }

  /** `CreateFilters(argc, argv, start_index)`. */
  function CreateFilters(args: seq<string>, start: int, toInt: string -> Option<int>, toReal: string -> Option<real>): (r: Result<seq<Filter>>)
    ensures start < 0 || start > |args| ==> r == Err(InvalidStartIndex)
    ensures 0 <= start <= |args| ==> r == Parse(args[start..], toInt, toReal)
  {
    if start < 0 || start > |args| then Err(InvalidStartIndex)
    else Parse(args[start..], toInt, toReal)
  }

  /** Operations the factory does not build are rejected, among them the
      names of the stand-alone gamma and histogram-equalisation filters. */
  lemma UnknownOperations(rest: seq<string>, toInt: string -> Option<int>, toReal: string -> Option<real>)
    ensures Parse(["-gamma"] + rest, toInt, toReal) == Err(UnknownFilter("-gamma"))
    ensures Parse(["-hist_eq"] + rest, toInt, toReal) == Err(UnknownFilter("-hist_eq"))
  {
    assert (["-gamma"] + rest)[0] == "-gamma";
    assert (["-hist_eq"] + rest)[0] == "-hist_eq";
  }

  /** A name without arguments, alone, parses to its filter. */
  lemma NoArgumentFilter(t: seq<string>, f: Filter, toInt: string -> Option<int>, toReal: string -> Option<real>)
    requires |t| == 1 && Lookup(t[0]) == Some(OpOf(f)) && Arity(OpOf(f)) == 0
    requires ParseOne(OpOf(f), [], toInt, toReal) == Ok(f)
    ensures Parse(t, toInt, toReal) == Ok([f])
  {
    assert t[1..1] == [] && t[1..] == [];
    assert [f] + [] == [f];
  }

  /** "-crop" needs two argument tokens and "-edge", "-blur", "-med" one;
      without them the factory raises. */
  lemma ArgumentCounts(a: string, toInt: string -> Option<int>, toReal: string -> Option<real>)
    ensures Parse(["-crop"], toInt, toReal) == Err(MissingArgument("-crop"))
    ensures Parse(["-crop", a], toInt, toReal) == Err(MissingArgument("-crop"))
    ensures Parse(["-edge"], toInt, toReal) == Err(MissingArgument("-edge"))
    ensures Parse(["-blur"], toInt, toReal) == Err(MissingArgument("-blur"))
    ensures Parse(["-med"], toInt, toReal) == Err(MissingArgument("-med"))
  {
  }

  /** "-gs", "-neg" and "-sharp" take no arguments: each alone parses. */
  lemma BareFilters(toInt: string -> Option<int>, toReal: string -> Option<real>)
    ensures Parse(["-gs"], toInt, toReal) == Ok([Grayscale])
    ensures Parse(["-neg"], toInt, toReal) == Ok([Negative])
    ensures Parse(["-sharp"], toInt, toReal) == Ok([Sharpen])
  {
    NoArgumentFilter(["-gs"], Grayscale, toInt, toReal);
    NoArgumentFilter(["-neg"], Negative, toInt, toReal);
    NoArgumentFilter(["-sharp"], Sharpen, toInt, toReal);
  }

  // ---------------------------------------------------------------------
  // Rendering filters as tokens

  /** The filters a command line can name: the values their constructors accept. */
  predicate Accepted(f: Filter) {
    match f
    case Crop(c) => c.width > 0 && c.height > 0
    case Blur(b) => FloatFilters.ValidBlur(b)
    case Median(m) => FloatFilters.ValidMedian(m)
    case _ => true
  }

  /** The tokens naming f, numbers written by `showInt` and `showReal`. */
  function Tokens(f: Filter, showInt: int -> string, showReal: real -> string): (t: seq<string>)
    ensures |t| == Width(f) && t[0] == Name(OpOf(f))
  {
    match f
    case Crop(c) => ["-crop", showInt(c.width), showInt(c.height)]
    case Grayscale => ["-gs"]
    case Negative => ["-neg"]
    case Sharpen => ["-sharp"]
    case Edge(e) => ["-edge", showReal(e.threshold)]
    case Blur(b) => ["-blur", showReal(b.sigma)]
    case Median(m) => ["-med", showInt(m.window)]
  }

  function Render(fs: seq<Filter>, showInt: int -> string, showReal: real -> string): (t: seq<string>)
    ensures |t| == TokenCount(fs)
  {
    if |fs| == 0 then [] else Tokens(fs[0], showInt, showReal) + Render(fs[1..], showInt, showReal)
  }

  /** The numbers f carries are read back from the text they are written
      as. Only these numbers are asked of `ToInt` and `ToDouble`, so a
      `ToInt` limited to 32-bit values meets this for every filter whose
      numbers fit. */
  predicate ReadsBack(f: Filter, toInt: string -> Option<int>, toReal: string -> Option<real>,
                      showInt: int -> string, showReal: real -> string)
  {
    match f
    case Crop(c) => toInt(showInt(c.width)) == Some(c.width) && toInt(showInt(c.height)) == Some(c.height)
    case Edge(e) => toReal(showReal(e.threshold)) == Some(e.threshold)
    case Blur(b) => toReal(showReal(b.sigma)) == Some(b.sigma)
    case Median(m) => toInt(showInt(m.window)) == Some(m.window)
    case _ => true
  }

  /** One filter's tokens parse back to that filter. */
  lemma ParseOneTokens(f: Filter, toInt: string -> Option<int>, toReal: string -> Option<real>,
                       showInt: int -> string, showReal: real -> string)
    requires Accepted(f) && ReadsBack(f, toInt, toReal, showInt, showReal)
    ensures var t := Tokens(f, showInt, showReal);
      Lookup(t[0]) == Some(OpOf(f)) && ParseOne(OpOf(f), t[1..], toInt, toReal) == Ok(f)
  {
    LookupName(OpOf(f));
  }

  /** Parsing the rendering of accepted filters gives them back, whatever
      text the numbers are written as, provided `ToInt` and `ToDouble` read
      back the numbers the filters carry. */
  lemma {:induction false} ParseRender(fs: seq<Filter>, toInt: string -> Option<int>, toReal: string -> Option<real>,
                                       showInt: int -> string, showReal: real -> string)
    requires forall i :: 0 <= i < |fs| ==> Accepted(fs[i]) && ReadsBack(fs[i], toInt, toReal, showInt, showReal)
    ensures Parse(Render(fs, showInt, showReal), toInt, toReal) == Ok(fs)
  {
    if |fs| > 0 {
      var head := Tokens(fs[0], showInt, showReal);
      var rest := Render(fs[1..], showInt, showReal);
      ParseOneTokens(fs[0], toInt, toReal, showInt, showReal);
      ParseRender(fs[1..], toInt, toReal, showInt, showReal);
      SplitAfter(head, rest);
      ParseStep(head + rest, OpOf(fs[0]), fs[0], fs[1..], toInt, toReal);
      assert [fs[0]] + fs[1..] == fs;
    }
  }

  /** One step of the loop when the first filter and the rest both parse. */
  lemma ParseStep(t: seq<string>, op: Op, f: Filter, rest: seq<Filter>, toInt: string -> Option<int>, toReal: string -> Option<real>)
    requires |t| > Arity(op) && Lookup(t[0]) == Some(op)
    requires ParseOne(op, t[1..Arity(op) + 1], toInt, toReal) == Ok(f)
    requires Parse(t[Arity(op) + 1..], toInt, toReal) == Ok(rest)
    ensures Parse(t, toInt, toReal) == Ok([f] + rest)
  {
  }

  lemma SplitAfter<T>(a: seq<T>, b: seq<T>)
    requires |a| > 0
    ensures (a + b)[0] == a[0]
    ensures (a + b)[1..|a|] == a[1..]
    ensures (a + b)[|a|..] == b
  {
  }

  lemma SlicesOfConcat<T>(a: seq<T>, b: seq<T>, k: nat)
    requires 0 < k <= |a|
    ensures (a + b)[0] == a[0]
    ensures (a + b)[1..k] == a[1..k]
    ensures (a + b)[k..] == a[k..] + b
  {
  }

  /** A token run that parses starts with one filter and its arguments,
      followed by a run that parses. */
  lemma ParseHead(t: seq<string>, toInt: string -> Option<int>, toReal: string -> Option<real>)
    requires |t| > 0 && Parse(t, toInt, toReal).Ok?
    ensures Lookup(t[0]).Some? && Arity(Lookup(t[0]).value) < |t|
    ensures var op := Lookup(t[0]).value; var n := Arity(op);
      && ParseOne(op, t[1..n + 1], toInt, toReal).Ok?
      && Parse(t[n + 1..], toInt, toReal).Ok?
      && Parse(t, toInt, toReal).value
         == [ParseOne(op, t[1..n + 1], toInt, toReal).value] + Parse(t[n + 1..], toInt, toReal).value
  {
  }

  /** The inductive step of `ParseConcat`: a's first filter f followed by
      the rest of a, which already parses together with b. */
  lemma ParseConcatStep(a: seq<string>, b: seq<string>, toInt: string -> Option<int>, toReal: string -> Option<real>)
    requires |a| > 0 && Parse(a, toInt, toReal).Ok? && Parse(b, toInt, toReal).Ok?
    requires var n := Arity(Lookup(a[0]).value);
      Parse(a[n + 1..] + b, toInt, toReal) == Ok(Parse(a[n + 1..], toInt, toReal).value + Parse(b, toInt, toReal).value)
    ensures Parse(a + b, toInt, toReal) == Ok(Parse(a, toInt, toReal).value + Parse(b, toInt, toReal).value)
  {
    ParseHead(a, toInt, toReal);
    var op := Lookup(a[0]).value;
    var n := Arity(op);
    var f := ParseOne(op, a[1..n + 1], toInt, toReal).value;
    var ra := Parse(a[n + 1..], toInt, toReal).value;
    var rb := Parse(b, toInt, toReal).value;
    SlicesOfConcat(a, b, n + 1);
    ParseStep(a + b, op, f, ra + rb, toInt, toReal);
    ConsAppend(f, ra, rb);
  }

  lemma ConsAppend<T>(x: T, s: seq<T>, t: seq<T>)
    ensures [x] + (s + t) == ([x] + s) + t
  {
  }

  /** Two token runs that each parse completely parse completely together,
      to the filters of the first followed by those of the second. */
  lemma {:induction false} ParseConcat(a: seq<string>, b: seq<string>, toInt: string -> Option<int>, toReal: string -> Option<real>)
    requires Parse(a, toInt, toReal).Ok? && Parse(b, toInt, toReal).Ok?
    ensures Parse(a + b, toInt, toReal) == Ok(Parse(a, toInt, toReal).value + Parse(b, toInt, toReal).value)
    decreases |a|
  {
    if |a| == 0 {
      assert a + b == b;
      assert Parse(a, toInt, toReal).value + Parse(b, toInt, toReal).value == Parse(b, toInt, toReal).value;
    } else {
      ParseHead(a, toInt, toReal);
      ParseConcat(a[Arity(Lookup(a[0]).value) + 1..], b, toInt, toReal);
      ParseConcatStep(a, b, toInt, toReal);
    }
  }
}
