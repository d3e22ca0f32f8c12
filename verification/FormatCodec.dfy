/** Stream formats as lists of atoms: the printer and the parser of the "format" message. */
module FormatCodec {
  import opened Atoms
  import opened Basics

  datatype BitDepth = Int8 | Int16 | Int24 | Float32 | Float64 | BadDepth(code: int)
  datatype Application = Voip | LowDelay | Audio | BadApplication(code: int)

  // A codec name that is not one of the known ones.
  type OtherCodec = s: string | s !in ["null", "pcm", "opus"]

  datatype Format =
    | NullFormat(channels: int, blockSize: int, sampleRate: int)
    | PcmFormat(channels: int, blockSize: int, sampleRate: int, depth: BitDepth)
    | OpusFormat(channels: int, blockSize: int, sampleRate: int, application: Application)
    | OtherFormat(codec: OtherCodec, channels: int, blockSize: int, sampleRate: int)

  function CodecName(f: Format): string {
    match f
    case NullFormat(_, _, _) => "null"
    case PcmFormat(_, _, _, _) => "pcm"
    case OpusFormat(_, _, _, _) => "opus"
    case OtherFormat(codec, _, _, _) => codec
  }

  function DepthToBytes(d: BitDepth): Option<int> {
    match d
    case Int8 => Some(1)
    case Int16 => Some(2)
    case Int24 => Some(3)
    case Float32 => Some(4)
    case Float64 => Some(8)
    case BadDepth(_) => None
  }

  function BytesToDepth(n: int): Option<BitDepth> {
    if n == 1 then Some(Int8)
    else if n == 2 then Some(Int16)
    else if n == 3 then Some(Int24)
    else if n == 4 then Some(Float32)
    else if n == 8 then Some(Float64)
    else None
  }

  function ApplicationToSymbol(a: Application): Option<string> {
    match a
    case Voip => Some("voip")
    case LowDelay => Some("lowdelay")
    case Audio => Some("audio")
    case BadApplication(_) => None
  }

  function SymbolToApplication(s: string): Option<Application> {
    if s == "_" || s == "audio" then Some(Audio)
    else if s == "voip" then Some(Voip)
    else if s == "lowdelay" then Some(LowDelay)
    else None
  }

  // The atoms that the format prints to, given room for `argc` atoms; none when the original
  // returns 0.
  function FormatToAtoms(f: Format, argc: int): Option<seq<Atom>> {
    if argc < 4 then None else
      var header := [Sym(CodecName(f)), Float(f.channels as real), Float(f.blockSize as real), Float(f.sampleRate as real)];
      match f
      case NullFormat(_, _, _) => Some(header)
      case PcmFormat(_, _, _, depth) =>
        var nbytes := DepthToBytes(depth);
        if argc < 5 || nbytes.None? then None else Some(header + [Float(nbytes.value as real)])
      case OpusFormat(_, _, _, application) =>
        var symbol := ApplicationToSymbol(application);
        if argc < 5 || symbol.None? then None else Some(header + [Sym(symbol.value)])
      case OtherFormat(_, _, _, _) => None
  }

  // A numeric argument: only float atoms count, everything else falls back to the default.
  function GetParam(argv: seq<Atom>, which: nat, default: int): int {
    if |argv| > which && argv[which].Float? then Trunc(argv[which].f) else default
  }

  function FormatParse(argv: seq<Atom>, maxChannels: int, systemRate: int): Option<Format> {
    var codec := if argv == [] then "" else GetSym(argv[0]);
    if codec == "null" then
      Some(NullFormat(GetParam(argv, 1, 1), GetParam(argv, 2, 64), GetParam(argv, 3, systemRate)))
    else if codec == "pcm" then
      var depth := BytesToDepth(GetParam(argv, 4, 4));
      if depth.None? then None else
        Some(PcmFormat(GetParam(argv, 1, maxChannels), GetParam(argv, 2, 64), GetParam(argv, 3, systemRate), depth.value))
    else if codec == "opus" then
      var application := if |argv| > 4 then SymbolToApplication(GetSym(argv[4])) else Some(Audio);
      if application.None? then None else
        Some(OpusFormat(GetParam(argv, 1, maxChannels), GetParam(argv, 2, 480), GetParam(argv, 3, 48000), application.value))
    else
      None
  }

  // The messages that are refused, whatever the defaults are.
  predicate IsRefused(argv: seq<Atom>) {
    var codec := if argv == [] then "" else GetSym(argv[0]);
    if codec == "null" then false
    else if codec == "pcm" then |argv| > 4 && argv[4].Float? && Trunc(argv[4].f) !in [1, 2, 3, 4, 8]
    else if codec == "opus" then |argv| > 4 && GetSym(argv[4]) !in ["_", "audio", "voip", "lowdelay"]
    else true
  }

  // Parsing fails for exactly these.
  lemma RefusedIff(argv: seq<Atom>, maxChannels: int, systemRate: int)
    ensures FormatParse(argv, maxChannels, systemRate).None? <==> IsRefused(argv)
  {
  }

  predicate IsProper(f: Format) {
    match f
    case NullFormat(_, _, _) => true
    case PcmFormat(_, _, _, depth) => !depth.BadDepth?
    case OpusFormat(_, _, _, application) => !application.BadApplication?
    case OtherFormat(_, _, _, _) => false
  }

  // The number taken from an argument: a float without its fraction, or else the default.
  predicate IsTaken(argv: seq<Atom>, i: nat, default: int, n: int) {
    if i < |argv| && argv[i].Float? then Truncates(n, argv[i].f) else n == default
  }

  lemma TakenIff(argv: seq<Atom>, i: nat, default: int, n: int)
    ensures GetParam(argv, i, default) == n <==> IsTaken(argv, i, default, n)
  {
    if i < |argv| && argv[i].Float? {
      TruncIff(argv[i].f, n);
    }
  }

  ghost predicate HasNumbers(f: Format, argv: seq<Atom>, channels: int, blockSize: int, sampleRate: int) {
    && IsTaken(argv, 1, channels, f.channels)
    && IsTaken(argv, 2, blockSize, f.blockSize)
    && IsTaken(argv, 3, sampleRate, f.sampleRate)
  }

  /** What an accepted message says, argument by argument, with the defaults of each codec. */
  lemma AcceptedFormat(argv: seq<Atom>, maxChannels: int, systemRate: int)
    requires FormatParse(argv, maxChannels, systemRate).Some?
    ensures var f := FormatParse(argv, maxChannels, systemRate).value;
            && argv != [] && argv[0] == Sym(CodecName(f)) && !f.OtherFormat?
            && (f.NullFormat? ==> HasNumbers(f, argv, 1, 64, systemRate))
            && (f.PcmFormat? ==>
                  && HasNumbers(f, argv, maxChannels, 64, systemRate)
                  && !f.depth.BadDepth?
                  && (f.depth.Int8? <==> IsTaken(argv, 4, 4, 1))
                  && (f.depth.Int16? <==> IsTaken(argv, 4, 4, 2))
                  && (f.depth.Int24? <==> IsTaken(argv, 4, 4, 3))
                  && (f.depth.Float32? <==> IsTaken(argv, 4, 4, 4))
                  && (f.depth.Float64? <==> IsTaken(argv, 4, 4, 8)))
            && (f.OpusFormat? ==>
                  && HasNumbers(f, argv, maxChannels, 480, 48000)
                  && !f.application.BadApplication?
                  && (f.application.Voip? <==> |argv| > 4 && argv[4] == Sym("voip"))
                  && (f.application.LowDelay? <==> |argv| > 4 && argv[4] == Sym("lowdelay")))
  {
    forall i, default, n ensures GetParam(argv, i, default) == n <==> IsTaken(argv, i, default, n) {
      TakenIff(argv, i, default, n);
    }
  }

  // Printing succeeds exactly for proper formats with enough room.
  lemma PrintSucceedsIff(f: Format, argc: int)
    ensures FormatToAtoms(f, argc).Some? <==> IsProper(f) && argc >= (if f.NullFormat? then 4 else 5)
    ensures FormatToAtoms(f, argc).Some? ==> |FormatToAtoms(f, argc).value| <= argc
  {
  }

  // An integral number or a proper name, not a placeholder.
  predicate IsPlain(a: Atom) {
    match a
    case Long(_) => false
    case Float(f) => f.Floor as real == f
    case Sym(s) => s != "" && s != "_"
  }

  /** Parsing what a format prints to gives the format back, whatever the defaults are. */
  lemma ParsePrinted(f: Format, argc: int, maxChannels: int, systemRate: int)
    requires FormatToAtoms(f, argc).Some?
    ensures FormatParse(FormatToAtoms(f, argc).value, maxChannels, systemRate) == Some(f)
    ensures forall i :: 0 <= i < |FormatToAtoms(f, argc).value| ==> IsPlain(FormatToAtoms(f, argc).value[i])
  {
    TruncOfInteger(f.channels);
    TruncOfInteger(f.blockSize);
    TruncOfInteger(f.sampleRate);
    var atoms := FormatToAtoms(f, argc).value;
    match f
    case NullFormat(_, _, _) =>
    case PcmFormat(_, _, _, depth) =>
      var n := DepthToBytes(depth).value;
      TruncOfInteger(n);
      assert GetParam(atoms, 4, 4) == n;
      assert BytesToDepth(n) == Some(depth);
    case OpusFormat(_, _, _, application) =>
      var s := ApplicationToSymbol(application).value;
      assert atoms[4] == Sym(s);
      assert SymbolToApplication(s) == Some(application);
  }

  /**
   Whatever is accepted, defaults included, prints, and the printed form is parsed to the same
   format under any other defaults.
   */
  lemma ParsePrintParse(argv: seq<Atom>, maxChannels: int, systemRate: int, maxChannels': int, systemRate': int)
    requires FormatParse(argv, maxChannels, systemRate).Some?
    ensures var f := FormatParse(argv, maxChannels, systemRate).value;
            && FormatToAtoms(f, 5).Some?
            && FormatParse(FormatToAtoms(f, 5).value, maxChannels', systemRate') == Some(f)
  {
    var f := FormatParse(argv, maxChannels, systemRate).value;
    PrintSucceedsIff(f, 5);
    ParsePrinted(f, 5, maxChannels', systemRate');
  }

  // The positions of the numeric arguments of a format message.
  predicate IsNumeric(argv: seq<Atom>, i: nat) {
    1 <= i < |argv| && (i <= 3 || (i == 4 && GetSym(argv[0]) == "pcm"))
  }

  // Replaces the integer atoms among the numeric arguments by the placeholder "_".
  function BlankIntegers(argv: seq<Atom>): (r: seq<Atom>)
    ensures |r| == |argv|
  {
    seq(|argv|, i requires 0 <= i < |argv| =>
      if argv[i].Long? && IsNumeric(argv, i) then Sym("_") else argv[i])
  }

  /**
   Integer atoms are ignored: a format message means the same with all its integer arguments
   replaced by placeholders.
   */
  lemma IntegersAreIgnored(argv: seq<Atom>, maxChannels: int, systemRate: int)
    ensures FormatParse(argv, maxChannels, systemRate) == FormatParse(BlankIntegers(argv), maxChannels, systemRate)
  {
    var blank := BlankIntegers(argv);
    if argv != [] {
      assert blank[0] == argv[0];
    }
    forall which: nat, default: int | 1 <= which <= 3 || (which == 4 && |argv| > 0 && GetSym(argv[0]) == "pcm")
      ensures GetParam(argv, which, default) == GetParam(blank, which, default)
    {
      if |argv| > which {
        assert blank[which] == if argv[which].Long? then Sym("_") else argv[which];
      }
    }
    if |argv| > 4 && GetSym(argv[0]) == "opus" {
      assert blank[4] == argv[4];
    }
  }

  // The default for a numeric argument.
  function DefaultAt(codec: string, i: nat, maxChannels: int, systemRate: int): int {
    if i == 1 then (if codec == "null" then 1 else maxChannels)
    else if i == 2 then (if codec == "opus" then 480 else 64)
    else if i == 3 then (if codec == "opus" then 48000 else systemRate)
    else 4
  }

  // The message as it was meant: each integer argument is the float of its value.
  function AsFloats(argv: seq<Atom>): (r: seq<Atom>)
    ensures |r| == |argv|
  {
    seq(|argv|, i requires 0 <= i < |argv| =>
      if argv[i].Long? && IsNumeric(argv, i) then Float(argv[i].n as real) else argv[i])
  }

  // The argument, if it is an integer, is what the code puts in its place.
  predicate IntegerIsDefault(argv: seq<Atom>, i: nat, default: int) {
    i < |argv| && argv[i].Long? ==> argv[i].n == default
  }

  // One argument is read as it was meant exactly when it is no integer, or the default.
  lemma ParamAsMeantIff(argv: seq<Atom>, i: nat, default: int)
    requires i < |argv| ==> IsNumeric(argv, i)
    ensures GetParam(argv, i, default) == GetParam(AsFloats(argv), i, default) <==> IntegerIsDefault(argv, i, default)
  {
    if i < |argv| && argv[i].Long? {
      assert AsFloats(argv)[i] == Float(argv[i].n as real);
      TruncOfInteger(argv[i].n);
    }
  }

  /**
   A format message is set as it was meant if and only if it is refused anyway, or each of its
   integer arguments happens to be the default of its position.
   */
  lemma SetAsMeantIff(argv: seq<Atom>, maxChannels: int, systemRate: int)
    ensures FormatParse(argv, maxChannels, systemRate) == FormatParse(AsFloats(argv), maxChannels, systemRate)
       <==> IsRefused(argv)
            || forall i: nat :: IsNumeric(argv, i) ==>
                 IntegerIsDefault(argv, i, DefaultAt(GetSym(argv[0]), i, maxChannels, systemRate))
  {
    if argv != [] {
      var codec := GetSym(argv[0]);
      assert AsFloats(argv)[0] == argv[0];
      forall i: nat | 1 <= i <= 3 || (i == 4 && codec == "pcm")
        ensures var default := DefaultAt(codec, i, maxChannels, systemRate);
                GetParam(argv, i, default) == GetParam(AsFloats(argv), i, default) <==> IntegerIsDefault(argv, i, default)
      {
        ParamAsMeantIff(argv, i, DefaultAt(codec, i, maxChannels, systemRate));
      }
      assert forall i: nat ::
          IsNumeric(argv, i) <==> i < |argv| && (i == 1 || i == 2 || i == 3 || (i == 4 && codec == "pcm"));
      assert codec == "opus" && |argv| > 4 ==> AsFloats(argv)[4] == argv[4];
    }
  }

  // So a format typed in integers is not the format that is set.
  lemma TypedIntegersAreLost(maxChannels: int, systemRate: int)
    ensures FormatParse([Sym("pcm"), Long(2), Long(128), Long(44100), Long(2)], maxChannels, systemRate)
         == Some(PcmFormat(maxChannels, 64, systemRate, Float32))
  {
  }

  // The application types that are accepted; "auto" is not among them.
  lemma OpusAcceptsIff(argv: seq<Atom>, maxChannels: int, systemRate: int)
    requires argv != [] && GetSym(argv[0]) == "opus"
    ensures FormatParse(argv, maxChannels, systemRate).Some? <==>
            |argv| <= 4 || GetSym(argv[4]) in ["_", "audio", "voip", "lowdelay"]
    ensures |argv| > 4 && argv[4] == Sym("auto") ==> FormatParse(argv, maxChannels, systemRate).None?
  {
    RefusedIff(argv, maxChannels, systemRate);
  }
}
