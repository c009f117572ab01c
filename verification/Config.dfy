// The configuration file: what save writes, what load accepts, and that the one
// undoes the other. Every persisted option is an entry of one table instead of a
// field of its own.
module Config {
  import opened Machine
  import opened Bits
  import opened ConfigText
  import opened ConfigNames
  import opened ConfigFile

  datatype Kind = KText | KFlag | KInt | KU32(allowZero: bool) | KU64 | KConfidence | KMode

  datatype SolverMode = Disabled | Preferred | Required

  datatype Value = Text(text: string) | Flag(on: bool) | Number(n: int) | Mode(mode: SolverMode)

  type Options = map<Key, Value>

  function KindOf(key: Key): Kind {
    match key
    case Hotkey => KText
    case MinAccesses | Alignment | HighlightDurationMs | MaxPropagationDepth | Z3WeightMinimizePadding |
       Z3WeightPreferNonUnion => KInt
    case Z3TimeoutMs | Z3MemoryLimitMb | Z3MaxRelaxIterations => KU32(true)
    case Z3MinArrayElements | Z3MaxArrayStride | Z3MaxAccesses | Z3MaxCandidates | Z3MaxFields | Z3MaxArrayElements |
       Z3MaxStructureSize | Z3MaxUnionAlternatives => KU32(false)
    case Z3MaxConstraintPairs => KU64
    case Z3MinConfidence => KConfidence
    case Z3Mode => KMode
    case _ => KFlag
  }

  // ---- The text that is written ------------------------------------------------------

  datatype Item = Plain(text: string) | Setting(key: Key)

  function Header(): seq<Item> {
    [
      Plain("# Structor Configuration"),
      Plain("# See https://github.com/" + "AnomalyCo/structor" + " for documentation"),
      Plain("")
    ]
  }

  function General(): seq<Item> {
    [
      Plain("[General]"), Setting(Hotkey), Setting(InteractiveMode), Setting(AutoOpenStruct), Setting(DebugMode),
      Plain("")
    ]
  }

  function TypeFix(): seq<Item> {
    [
      Plain("[TypeFix]"), Setting(AutoFixTypes), Setting(AutoFixVerbose), Plain("")
    ]
  }

  function Synthesis(): seq<Item> {
    [
      Plain("[Synthesis]"), Setting(MinAccesses), Setting(Alignment), Setting(VtableDetection),
      Setting(EmitSubstructs), Plain("")
    ]
  }

  function Propagation(): seq<Item> {
    [
      Plain("[Propagation]"), Setting(AutoPropagate), Setting(PropagateToCallers), Setting(PropagateToCallees),
      Setting(MaxPropagationDepth), Plain("")
    ]
  }

  function UserInterface(): seq<Item> {
    [
      Plain("[UI]"), Setting(HighlightChanges), Setting(HighlightDurationMs), Setting(GenerateComments), Plain("")
    ]
  }

  function Solver(): seq<Item> {
    [
      Plain("[Z3]"), Setting(Z3Mode), Setting(Z3TimeoutMs), Setting(Z3MemoryLimitMb), Setting(Z3EnableMaxsmt),
      Setting(Z3EnableUnsatCore), Setting(Z3DetectArrays), Setting(Z3MinArrayElements),
      Setting(Z3DetectSymbolicArrays), Setting(Z3MaxArrayStride), Setting(Z3CrossFunction), Setting(Z3MaxAccesses),
      Setting(Z3MaxCandidates), Setting(Z3MaxFields), Setting(Z3MaxArrayElements), Setting(Z3MaxStructureSize),
      Setting(Z3MaxConstraintPairs), Setting(Z3AllowUnions), Setting(Z3MaxUnionAlternatives),
      Setting(Z3MinConfidence), Setting(Z3RelaxOnUnsat), Setting(Z3MaxRelaxIterations),
      Setting(Z3WeightMinimizePadding), Setting(Z3WeightPreferNonUnion)
    ]
  }

  function Layout(): seq<Item> {
    Header() + General() + TypeFix() + Synthesis() + Propagation() + UserInterface() + Solver()
  }

  function PrintMode(mode: SolverMode): string {
    match mode
    case Disabled => "disabled"
    case Required => "required"
    case Preferred => "preferred"
  }

  function PrintValue(value: Value): string {
    match value
    case Text(text) => CStr(text)
    case Flag(on) => PrintBool(on)
    case Number(n) => PrintInt(n)
    case Mode(mode) => PrintMode(mode)
  }

  function Render(options: Options, item: Item): string {
    match item
    case Plain(text) => text
    case Setting(key) => NameOf(key) + "=" + if key in options then PrintValue(options[key]) else ""
  }

  function Rendered(options: Options, layout: seq<Item>): (lines: seq<string>)
    ensures |lines| == |layout|
  {
    if layout == [] then [] else [Render(options, layout[0])] + Rendered(options, layout[1..])
  }

  function SaveText(options: Options): string {
    Join(Rendered(options, Layout()))
  }

  // ---- The text that is read ---------------------------------------------------------

  function ParseMode(s: string): Option<SolverMode> {
    if s == "disabled" then Some(Disabled)
    else if s == "required" then Some(Required)
    else if s == "preferred" then Some(Preferred)
    else None
  }

  // None stands for the exceptions that reject the file.
  function ParseValue(kind: Kind, s: string): Option<Value> {
    match kind
    case KText => Some(Text(CStr(s)))
    case KFlag => (match ParseBool(s) case None => None case Some(b) => Some(Flag(b)))
    case KInt => (match ParseInt(s) case None => None case Some(n) => Some(Number(n)))
    case KU32(allowZero) => (match ParseU32(s, allowZero) case None => None case Some(n) => Some(Number(n)))
    case KU64 => (match ParseU64(s) case None => None case Some(n) => if n == 0 then None else Some(Number(n)))
    case KConfidence =>
      (match ParseU32(s, true) case None => None case Some(n) => if n > 100 then None else Some(Number(n)))
    case KMode => (match ParseMode(s) case None => None case Some(m) => Some(Mode(m)))
  }

  predicate StartsNoSetting(line: string) {
    line == "" || line[0] == '#' || line[0] == ';' || line[0] == '['
  }

  function WithoutComment(value: string): string {
    if Find(value, '#').Some? then Trim(Before(value, '#')) else value
  }

  // One line of the file: a blank or comment line, a section, a line without '=' and
  // an unknown key change nothing; a value that does not parse rejects the file.
  function LoadLine(options: Options, line: string): Option<Options> {
    var t := Trim(line);
    if StartsNoSetting(t) then Some(options)
    else
      match Find(t, '=')
      case None => Some(options)
      case Some(i) =>
        match KeyOf(Trim(t[..i]))
        case None => Some(options)
        case Some(key) =>
          match ParseValue(KindOf(key), WithoutComment(Trim(t[i + 1..])))
          case None => None
          case Some(value) => Some(options[key := value])
  }

  function LoadLines(options: Options, lines: seq<string>): Option<Options>
    decreases |lines|
  {
    if lines == [] then Some(options)
    else
      match LoadLine(options, lines[0])
      case None => None
      case Some(next) => LoadLines(next, lines[1..])
  }

  // ---- Validity ------------------------------------------------------------------------

  datatype ValidationError =
    | NoError | InvalidAlignment | InvalidSynthesisThreshold | InvalidPropagationDepth
    | InvalidHardLimit | InvalidArrayBounds | InvalidConfidence | InvalidWeight

  function Num(options: Options, key: Key): int {
    if key in options && options[key].Number? then options[key].n else 0
  }

  predicate IsValidAbiAlignment(alignment: int) {
    0 < alignment <= INT32_MAX && BitAnd(alignment, alignment - 1) == 0
  }

  predicate HasValidAlignment(o: Options) {
    IsValidAbiAlignment(Num(o, Alignment))
  }

  predicate HasZeroLimit(o: Options) {
    Num(o, Z3MaxAccesses) == 0 || Num(o, Z3MaxCandidates) == 0 || Num(o, Z3MaxFields) == 0 ||
    Num(o, Z3MaxArrayElements) == 0 || Num(o, Z3MaxStructureSize) == 0 ||
    Num(o, Z3MaxConstraintPairs) == 0 || Num(o, Z3MaxUnionAlternatives) == 0
  }

  predicate HasBadArrayBounds(o: Options) {
    Num(o, Z3MinArrayElements) == 0 || Num(o, Z3MaxArrayStride) == 0 ||
    Num(o, Z3MinArrayElements) > Num(o, Z3MaxArrayElements)
  }

  function Validate(o: Options): ValidationError {
    if !HasValidAlignment(o) then InvalidAlignment
    else if Num(o, MinAccesses) <= 0 then InvalidSynthesisThreshold
    else if Num(o, MaxPropagationDepth) < 0 then InvalidPropagationDepth
    else if HasZeroLimit(o) then InvalidHardLimit
    else if HasBadArrayBounds(o) then InvalidArrayBounds
    else if Num(o, Z3MinConfidence) > 100 then InvalidConfidence
    else if Num(o, Z3WeightMinimizePadding) < 0 || Num(o, Z3WeightPreferNonUnion) < 0 then InvalidWeight
    else NoError
  }

  predicate IsValid(options: Options) {
    Validate(options) == NoError
  }

  // The options for which zero is refused.
  predicate IsPositiveLimit(key: Key) {
    key in {Z3MaxAccesses, Z3MaxCandidates, Z3MaxFields, Z3MaxArrayElements, Z3MaxStructureSize, Z3MaxConstraintPairs,
            Z3MaxUnionAlternatives, Z3MinArrayElements, Z3MaxArrayStride}
  }

  // Which options are valid.
  lemma ValidMeans(o: Options)
    ensures IsValid(o) <==>
              && IsPowerOfTwo(Num(o, Alignment)) && 0 < Num(o, Alignment) <= INT32_MAX
              && Num(o, MinAccesses) > 0 && Num(o, MaxPropagationDepth) >= 0
              && (forall key: Key :: IsPositiveLimit(key) ==> Num(o, key) != 0)
              && Num(o, Z3MinArrayElements) <= Num(o, Z3MaxArrayElements) && Num(o, Z3MinConfidence) <= 100
              && Num(o, Z3WeightMinimizePadding) >= 0 && Num(o, Z3WeightPreferNonUnion) >= 0
  {
    AlignmentMeans(o);
    LimitsMean(o);
  }

  lemma AlignmentMeans(o: Options)
    ensures HasValidAlignment(o) <==> IsPowerOfTwo(Num(o, Alignment)) && 0 < Num(o, Alignment) <= INT32_MAX
  {
    if Num(o, Alignment) > 0 { PowerOfTwoTest(Num(o, Alignment)); }
  }

  lemma LimitsMean(o: Options)
    ensures !HasZeroLimit(o) && !HasBadArrayBounds(o) <==>
              && (forall key: Key :: IsPositiveLimit(key) ==> Num(o, key) != 0)
              && Num(o, Z3MinArrayElements) <= Num(o, Z3MaxArrayElements)
  {
    if forall key: Key :: IsPositiveLimit(key) ==> Num(o, key) != 0 {
      assert IsPositiveLimit(Z3MaxAccesses) && IsPositiveLimit(Z3MaxCandidates) && IsPositiveLimit(Z3MaxFields);
      assert IsPositiveLimit(Z3MaxArrayElements) && IsPositiveLimit(Z3MaxStructureSize);
      assert IsPositiveLimit(Z3MaxConstraintPairs) && IsPositiveLimit(Z3MaxUnionAlternatives);
      assert IsPositiveLimit(Z3MinArrayElements) && IsPositiveLimit(Z3MaxArrayStride);
    }
  }

  // The value has the C++ type of its option.
  predicate HasType(kind: Kind, value: Value) {
    match kind
    case KText => value.Text?
    case KFlag => value.Flag?
    case KInt => value.Number? && INT32_MIN <= value.n <= INT32_MAX
    case KU32(_) => value.Number? && 0 <= value.n <= UINT32_MAX
    case KU64 => value.Number? && 0 <= value.n <= UINT64_MAX
    case KConfidence => value.Number? && 0 <= value.n <= 255
    case KMode => value.Mode?
  }

  ghost predicate Typed(options: Options) {
    forall key: Key :: key in options && HasType(KindOf(key), options[key])
  }

  // The whole file: all lines, then validation of the result.
  function LoadText(options: Options, text: string): Option<Options> {
    match LoadLines(options, Lines(text))
    case None => None
    case Some(loaded) => if IsValid(loaded) then Some(loaded) else None
  }

  // A text that a line can carry: no comment sign, no line end, no terminator and no
  // outer blank.
  predicate IsClean(s: string) {
    '#' !in s && '\n' !in s && '\0' !in s && NoOuterBlank(s)
  }

  lemma EveryKeyIsSaved(key: Key)
    ensures Setting(key) in Layout()
  {
  }

  // ---- One line ----------------------------------------------------------------------

  lemma WordFacts(name: string)
    requires IsWord(name)
    ensures name != "" && NoOuterBlank(name) && !StartsNoSetting(name) && '=' !in name && '\n' !in name
  {
    assert IsWordChar(name[0]) && IsWordChar(name[|name| - 1]);
  }

  lemma {:induction false} TrimRightAfter(a: string, v: string)
    requires a != "" && !IsBlank(a[|a| - 1])
    ensures TrimRight(a + v) == a + TrimRight(v)
  {
    if v == "" {
      assert a + v == a;
    } else if IsBlank(v[|v| - 1]) {
      TrimRightAfter(a, v[..|v| - 1]);
      assert (a + v)[..|a + v| - 1] == a + v[..|v| - 1];
    }
  }

  lemma TrimsSetting(name: string, v: string)
    requires IsWord(name)
    ensures Trim(name + "=" + v) == name + ['='] + TrimRight(v) && !StartsNoSetting(Trim(name + "=" + v))
  {
    WordFacts(name);
    var line := name + "=" + v;
    assert line == (name + "=") + v && line[0] == name[0];
    TrimRightAfter(name + "=", v);
    assert (name + ['='] + TrimRight(v))[0] == name[0];
  }

  lemma SplitsSetting(name: string, v: string)
    requires IsWord(name)
    ensures var t := name + ['='] + v;
            Find(t, '=') == Some(|name|) && Trim(t[..|name|]) == name && t[|name| + 1..] == v
  {
    WordFacts(name);
    TrimKeeps(name);
    FindAfter(name, '=', v);
    assert (name + ['='] + v)[..|name|] == name;
  }

  // Reading "name=v" assigns to the option of that name, whatever v is.
  lemma LoadsSetting(options: Options, key: Key, v: string)
    ensures LoadLine(options, NameOf(key) + "=" + v) ==
            match ParseValue(KindOf(key), WithoutComment(Trim(TrimRight(v))))
            case None => None
            case Some(value) => Some(options[key := value])
  {
    NameIsWord(key);
    KeyOfName(key);
    TrimsSetting(NameOf(key), v);
    SplitsSetting(NameOf(key), TrimRight(v));
  }

  lemma CleanIsKept(v: string)
    requires IsClean(v)
    ensures WithoutComment(Trim(TrimRight(v))) == v && CStr(v) == v
  {
    CommentFreeIsKept(v);
    BeforeIsClean(v, '\0');
  }

  // A line that gives a 64-bit option a negative number: it rejects the file if the
  // minus sign comes first or the number is too long, and otherwise assigns a number
  // close to 2^64.
  lemma NegativeLine(options: Options, key: Key, v: string)
    requires KindOf(key) == KU64 && NoOuterBlank(v) && '#' !in v
    requires ParseSigned(v).Some? && ParseSigned(v).value.negative && ParseSigned(v).value.magnitude > 0
    ensures var m := ParseSigned(v).value.magnitude;
            LoadLine(options, NameOf(key) + "=" + v) ==
            if v[0] != '-' && m <= UINT64_MAX then Some(options[key := Number(0x1_0000_0000_0000_0000 - m)]) else None
  {
    NegativeValue(v);
    LoadsSetting(options, key, v);
    CommentFreeIsKept(v);
  }

  lemma NegativeValue(v: string)
    requires ParseSigned(v).Some? && ParseSigned(v).value.negative && ParseSigned(v).value.magnitude > 0
    ensures var m := ParseSigned(v).value.magnitude;
            && v != ""
            && ParseValue(KU64, v) ==
               if v[0] != '-' && m <= UINT64_MAX then Some(Number(0x1_0000_0000_0000_0000 - m)) else None
  {
    NegativeUnsigned(v, true);
  }

  lemma CommentFreeIsKept(v: string)
    requires NoOuterBlank(v) && '#' !in v
    ensures WithoutComment(Trim(TrimRight(v))) == v
  {
    TrimKeeps(v);
    FindIsFirst(v, '#');
  }

  // Another number of pairs changes no other part of the verdict.
  lemma ValidWithPairs(options: Options, n: int)
    requires IsValid(options) && n != 0
    ensures IsValid(options[Z3MaxConstraintPairs := Number(n)])
  {
    var changed := options[Z3MaxConstraintPairs := Number(n)];
    assert Num(changed, Alignment) == Num(options, Alignment);
    assert HasValidAlignment(changed) && !HasZeroLimit(changed) && !HasBadArrayBounds(changed);
    assert Num(changed, MinAccesses) > 0 && Num(changed, MaxPropagationDepth) >= 0;
    assert Num(changed, Z3MinConfidence) <= 100;
    assert Num(changed, Z3WeightMinimizePadding) >= 0 && Num(changed, Z3WeightPreferNonUnion) >= 0;
  }

  lemma OneLineFile(options: Options, line: string, loaded: Option<Options>)
    requires line != "" && '\n' !in line && LoadLine(options, line) == loaded
    requires loaded.Some? ==> IsValid(loaded.value)
    ensures LoadText(options, line) == loaded
  {
    FindIsFirst(line, '\n');
    var lines := Lines(line);
    assert Find(line, '\n').None? && GetLine(line) == (line, "") && Lines("") == [];
    assert lines == [line] && lines[1..] == [];
    assert LoadLines(options, lines) == if loaded.None? then None else LoadLines(loaded.value, lines[1..]);
  }

  // A whole file with a negative number is loaded on the same condition, and the
  // options stay valid.
  lemma NegativeFile(options: Options, v: string)
    requires IsValid(options) && NoOuterBlank(v) && '#' !in v && '\n' !in v
    requires ParseSigned(v).Some? && ParseSigned(v).value.negative && ParseSigned(v).value.magnitude > 0
    ensures var m := ParseSigned(v).value.magnitude;
            LoadText(options, NameOf(Z3MaxConstraintPairs) + "=" + v) ==
            if v[0] != '-' && m <= UINT64_MAX
            then Some(options[Z3MaxConstraintPairs := Number(0x1_0000_0000_0000_0000 - m)])
            else None
  {
    NameIsWord(Z3MaxConstraintPairs);
    WordFacts(NameOf(Z3MaxConstraintPairs));
    NegativeLine(options, Z3MaxConstraintPairs, v);
    var line := NameOf(Z3MaxConstraintPairs) + "=" + v;
    var loaded := LoadLine(options, line);
    var m := ParseSigned(v).value.magnitude;
    if loaded.Some? { ValidWithPairs(options, 0x1_0000_0000_0000_0000 - m); }
    OneLineFile(options, line, loaded);
  }

  lemma MinusFivePairs()
    ensures NameOf(Z3MaxConstraintPairs) + "=" + "\U{000B}-5" == "z3_max_constraint_pairs=\U{000B}-5"
  {
  }

  // Minus five pairs, behind a vertical tab.
  lemma MinusFiveIsLoaded(options: Options)
    requires IsValid(options)
    ensures LoadText(options, "z3_max_constraint_pairs=\U{000B}-5") ==
            Some(options[Z3MaxConstraintPairs := Number(0x1_0000_0000_0000_0000 - 5)])
  {
    MinusFiveBehindTab();
    MinusFivePairs();
    NegativeFile(options, "\U{000B}-5");
  }

  // A comment, a section header or an empty line.
  predicate IsIgnored(text: string) {
    (text == "" || text[0] == '#' || text[0] == '[') && '\n' !in text
  }

  lemma LoadsIgnored(options: Options, text: string)
    requires IsIgnored(text)
    ensures LoadLine(options, text) == Some(options)
  {
    if text != "" {
      TrimRightAfter(text[..1], text[1..]);
      assert text[..1] + text[1..] == text;
    }
  }

  // ---- One value ---------------------------------------------------------------------

  // What load accepts beyond the type of the option.
  predicate IsLoadable(kind: Kind, value: Value) {
    match kind
    case KU32(allowZero) => value.Number? && (allowZero || value.n != 0)
    case KU64 => value.Number? && value.n != 0
    case KConfidence => value.Number? && value.n <= 100
    case _ => true
  }

  lemma {:induction false} DigitsAreClean(s: string)
    requires AllDigits(s)
    ensures forall c :: c in s ==> IsDigit(c)
  {
    if s != "" {
      DigitsAreClean(s[..|s| - 1]);
      assert s == s[..|s| - 1] + [s[|s| - 1]];
    }
  }

  lemma PrintedIntIsClean(n: int)
    ensures IsClean(PrintInt(n))
  {
    var m: nat := if n < 0 then 0 - n else n;
    var digits := PrintNat(m);
    PrintedValue(m);
    DigitsAreClean(digits);
    assert digits[0] in digits && digits[|digits| - 1] in digits;
  }

  lemma PrintedNatLoads(n: nat)
    requires n <= UINT64_MAX
    ensures ParseU64(PrintInt(n)) == Some(n)
  {
    ParsePrintedNat(n);
  }

  lemma NumberRoundTrip(kind: Kind, n: int)
    requires HasType(kind, Number(n)) && IsLoadable(kind, Number(n))
    ensures ParseValue(kind, PrintInt(n)) == Some(Number(n))
  {
    if kind.KInt? { ParsePrintedInt(n); } else { PrintedNatLoads(n); }
  }

  lemma FlagRoundTrip(on: bool)
    ensures IsClean(PrintBool(on)) && ParseValue(KFlag, PrintBool(on)) == Some(Flag(on))
  {
    ParsePrintedBool(on);
  }

  lemma ModeRoundTrip(mode: SolverMode)
    ensures IsClean(PrintMode(mode)) && ParseValue(KMode, PrintMode(mode)) == Some(Mode(mode))
  {
  }

  lemma ValueRoundTrip(kind: Kind, value: Value)
    requires HasType(kind, value) && IsLoadable(kind, value) && kind != KText
    ensures IsClean(PrintValue(value)) && ParseValue(kind, PrintValue(value)) == Some(value)
  {
    match value
    case Flag(on) => FlagRoundTrip(on);
    case Mode(mode) => ModeRoundTrip(mode);
    case Number(n) =>
      PrintedIntIsClean(n);
      NumberRoundTrip(kind, n);
  }

  // Valid options hold only values that load accepts.
  lemma ValidIsLoadable(options: Options, key: Key)
    requires Typed(options) && IsValid(options)
    ensures IsLoadable(KindOf(key), options[key])
  {
  }

  // ---- The whole file ----------------------------------------------------------------

  ghost predicate Overwrites(options: Options, saved: Options, layout: seq<Item>, loaded: Options) {
    forall key: Key ::
      if Setting(key) in layout then Lookup(loaded, key) == Lookup(saved, key)
      else Lookup(loaded, key) == Lookup(options, key)
  }

  ghost predicate IsSavable(options: Options) {
    && Typed(options)
    && (forall key: Key :: key in options && IsLoadable(KindOf(key), options[key]))
    && '\n' !in CStr(options[Hotkey].text)
  }

  // What comes back for a hotkey without line ends.
  function Echo(hotkey: string): string {
    CStr(WithoutComment(Trim(TrimRight(CStr(hotkey)))))
  }

  function Echoed(options: Options): Options
    requires Hotkey in options && options[Hotkey].Text?
  {
    options[Hotkey := Text(Echo(options[Hotkey].text))]
  }

  ghost predicate IgnoresPlain(layout: seq<Item>) {
    forall item :: item in layout && item.Plain? ==> IsIgnored(item.text)
  }

  lemma LoadsItem(options: Options, saved: Options, item: Item)
    requires IsSavable(saved) && (item.Plain? ==> IsIgnored(item.text))
    ensures '\n' !in Render(saved, item)
    ensures LoadLine(options, Render(saved, item)) ==
            Some(if item.Plain? then options else options[item.key := Echoed(saved)[item.key]])
  {
    match item
    case Plain(text) => LoadsIgnored(options, text);
    case Setting(key) =>
      var v := PrintValue(saved[key]);
      if key != Hotkey {
        ValueRoundTrip(KindOf(key), saved[key]);
        CleanIsKept(v);
      }
      LoadsSetting(options, key, v);
      NameIsWord(key);
      WordFacts(NameOf(key));
  }

  lemma OverwritesOneMore(options: Options, saved: Options, item: Item, rest: seq<Item>, loaded: Options)
    requires item.Setting? ==> item.key in saved
    requires Overwrites(if item.Plain? then options else options[item.key := saved[item.key]], saved, rest, loaded)
    ensures Overwrites(options, saved, [item] + rest, loaded)
  {
    forall key: Key ensures Setting(key) in [item] + rest <==> Setting(key) == item || Setting(key) in rest {}
  }

  lemma RenderedFirst(options: Options, saved: Options, item: Item, rest: seq<Item>)
    requires LoadLine(options, Render(saved, item)).Some?
    ensures Rendered(saved, [item] + rest) == [Render(saved, item)] + Rendered(saved, rest)
    ensures LoadLines(options, Rendered(saved, [item] + rest)) ==
            LoadLines(LoadLine(options, Render(saved, item)).value, Rendered(saved, rest))
  {
    assert ([item] + rest)[1..] == rest;
    assert ([Render(saved, item)] + Rendered(saved, rest))[1..] == Rendered(saved, rest);
  }

  // Loading saved lines overwrites exactly the options they name.
  lemma {:induction false} LoadsRendered(options: Options, saved: Options, layout: seq<Item>)
    requires IsSavable(saved) && IgnoresPlain(layout)
    ensures LoadLines(options, Rendered(saved, layout)).Some?
    ensures Overwrites(options, Echoed(saved), layout, LoadLines(options, Rendered(saved, layout)).value)
    decreases |layout|
  {
    if layout != [] {
      var item, rest := layout[0], layout[1..];
      assert layout == [item] + rest;
      LoadsItem(options, saved, item);
      LoadsRendered(if item.Plain? then options else options[item.key := Echoed(saved)[item.key]], saved, rest);
      RenderedFirst(options, saved, item, rest);
      OverwritesOneMore(options, Echoed(saved), item, rest, LoadLines(options, Rendered(saved, layout)).value);
    }
  }

  lemma {:induction false} RendersOneLiners(saved: Options, layout: seq<Item>)
    requires IsSavable(saved) && IgnoresPlain(layout)
    ensures OneLiners(Rendered(saved, layout))
  {
    if layout != [] {
      LoadsItem(saved, saved, layout[0]);
      RendersOneLiners(saved, layout[1..]);
    }
  }

  lemma PlainTexts()
    ensures IsIgnored("") && IsIgnored("# Structor Configuration")
    ensures IsIgnored("[General]") && IsIgnored("[TypeFix]") && IsIgnored("[Synthesis]")
    ensures IsIgnored("[Propagation]") && IsIgnored("[UI]") && IsIgnored("[Z3]")
  {
  }

  lemma LinkIsIgnored()
    ensures IsIgnored("# See https://github.com/" + "AnomalyCo/structor" + " for documentation")
  {
    assert '\n' !in "# See https://github.com/" && '\n' !in "AnomalyCo/structor" && '\n' !in " for documentation";
  }

  lemma FirstSectionsIgnorePlain()
    ensures IgnoresPlain(Header()) && IgnoresPlain(General()) && IgnoresPlain(TypeFix()) && IgnoresPlain(Synthesis())
  {
    PlainTexts();
    LinkIsIgnored();
  }

  lemma NextSectionsIgnorePlain()
    ensures IgnoresPlain(Propagation()) && IgnoresPlain(UserInterface())
  {
    PlainTexts();
  }

  lemma SolverSectionIgnoresPlain()
    ensures IgnoresPlain(Solver())
  {
    PlainTexts();
  }

  lemma LayoutIgnoresPlain()
    ensures IgnoresPlain(Layout())
  {
    FirstSectionsIgnorePlain();
    NextSectionsIgnorePlain();
    SolverSectionIgnoresPlain();
  }

  lemma OverwrittenAt(options: Options, saved: Options, layout: seq<Item>, loaded: Options, key: Key)
    requires Overwrites(options, saved, layout, loaded) && Setting(key) in layout && key in saved
    ensures key in loaded && loaded[key] == saved[key]
  {
    assert Lookup(loaded, key) == Lookup(saved, key);
  }

  lemma OverwrittenByAll(options: Options, saved: Options, loaded: Options)
    requires Overwrites(options, saved, Layout(), loaded) && Typed(saved)
    ensures loaded == saved
  {
    forall key: Key ensures key in saved && key in loaded && loaded[key] == saved[key] {
      EveryKeyIsSaved(key);
      OverwrittenAt(options, saved, Layout(), loaded, key);
    }
    SameOptions(loaded, saved);
  }

  lemma SameOptions(a: Options, b: Options)
    requires forall key: Key :: key in b && key in a && a[key] == b[key]
    ensures a == b
  {
  }

  lemma SavedLines(saved: Options)
    requires IsSavable(saved)
    ensures Lines(SaveText(saved)) == Rendered(saved, Layout())
  {
    var lines := Rendered(saved, Layout());
    LayoutIgnoresPlain();
    RendersOneLiners(saved, Layout());
    LinesOfJoin(lines, "");
    assert Join(lines) + "" == Join(lines) && lines + Lines("") == lines;
  }

  lemma EchoedIsValid(saved: Options)
    requires IsSavable(saved) && IsValid(saved)
    ensures Typed(Echoed(saved)) && IsValid(Echoed(saved))
  {
    forall key: Key ensures Num(Echoed(saved), key) == Num(saved, key) {}
  }

  lemma LoadsEchoed(options: Options, saved: Options)
    requires IsSavable(saved) && IsValid(saved)
    ensures LoadLines(options, Rendered(saved, Layout())) == Some(Echoed(saved))
  {
    LayoutIgnoresPlain();
    LoadsRendered(options, saved, Layout());
    EchoedIsValid(saved);
    OverwrittenByAll(options, Echoed(saved), LoadLines(options, Rendered(saved, Layout())).value);
  }

  // What loading a saved file gives, whatever was in force before, if the hotkey has
  // no line end.
  lemma LoadsWhatWasSaved(options: Options, saved: Options)
    requires IsSavable(saved) && IsValid(saved)
    ensures LoadText(options, SaveText(saved)) == Some(Echoed(saved))
  {
    SavedLines(saved);
    LoadsEchoed(options, saved);
    EchoedIsValid(saved);
  }

  // A hotkey comes back unchanged exactly if a line can carry it.
  lemma EchoIsExactForClean(hotkey: string)
    requires '\n' !in CStr(hotkey)
    ensures Echo(hotkey) == hotkey <==> IsClean(hotkey)
  {
    if IsClean(hotkey) {
      CleanIsKept(hotkey);
    } else if Echo(hotkey) == hotkey {
      EchoIsClean(hotkey);
      BeforeIsClean(hotkey, '\0');
    }
  }

  lemma EchoIsClean(hotkey: string)
    requires Echo(hotkey) == hotkey
    ensures '#' !in hotkey && '\0' !in hotkey && NoOuterBlank(hotkey)
  {
    var trimmed := Trim(TrimRight(CStr(hotkey)));
    var v := WithoutComment(trimmed);
    BeforeIsClean(v, '\0');
    BeforeIsClean(CStr(hotkey), '\0');
    BeforeIsClean(hotkey, '\0');
    Trimmed(TrimRight(CStr(hotkey)));
    var _ := TrimRightKeepsPrefix(CStr(hotkey));
    BeforeIsClean(trimmed, '#');
    FindIsFirst(trimmed, '#');
    Trimmed(Before(trimmed, '#'));
    assert '\0' !in v;
  }

  // ---- A hotkey with a line end ----------------------------------------------------------

  lemma {:induction false} LinesAreOneLiners(text: string)
    ensures OneLiners(Lines(text))
    decreases |text|
  {
    if text != "" {
      FindIsFirst(text, '\n');
      LinesAreOneLiners(GetLine(text).1);
    }
  }

  ghost predicate HotkeyIsOneLine(options: Options) {
    Hotkey in options && options[Hotkey].Text? && '\n' !in options[Hotkey].text
  }

  lemma ParsedTextIsPart(line: string, i: nat)
    requires '\n' !in line && i < |line|
    ensures '\n' !in CStr(WithoutComment(Trim(line[i + 1..])))
  {
    var trimmed := Trim(line[i + 1..]);
    Trimmed(line[i + 1..]);
    BeforeIsClean(trimmed, '#');
    Trimmed(Before(trimmed, '#'));
    BeforeIsClean(WithoutComment(trimmed), '\0');
  }

  lemma LineKeepsHotkeyOneLine(options: Options, line: string)
    requires HotkeyIsOneLine(options) && '\n' !in line && LoadLine(options, line).Some?
    ensures HotkeyIsOneLine(LoadLine(options, line).value)
  {
    var t := Trim(line);
    assert '\n' !in t by { Trimmed(line); }
    var i := Find(t, '=');
    if i.Some? {
      ParsedTextIsPart(t, i.value);
      AssignedKeepsHotkeyOneLine(options, KeyOf(Trim(t[..i.value])), WithoutComment(Trim(t[i.value + 1..])));
    }
  }

  lemma AssignedKeepsHotkeyOneLine(options: Options, key: Option<Key>, v: string)
    requires HotkeyIsOneLine(options) && '\n' !in CStr(v)
    ensures key.Some? && ParseValue(KindOf(key.value), v).Some? ==>
              HotkeyIsOneLine(options[key.value := ParseValue(KindOf(key.value), v).value])
  {
  }

  lemma {:induction false} LinesKeepHotkeyOneLine(options: Options, lines: seq<string>)
    requires HotkeyIsOneLine(options) && OneLiners(lines) && LoadLines(options, lines).Some?
    ensures HotkeyIsOneLine(LoadLines(options, lines).value)
    decreases |lines|
  {
    if lines != [] {
      LineKeepsHotkeyOneLine(options, lines[0]);
      LinesKeepHotkeyOneLine(LoadLine(options, lines[0]).value, lines[1..]);
    }
  }

  // Whatever follows a first line "hotkey=v", the hotkey that is loaded has no line end.
  lemma HotkeyLineDecides(options: Options, v: string, rest: string)
    ensures var lines := Lines(NameOf(Hotkey) + "=" + v + "\n" + rest);
            LoadLines(options, lines).Some? ==> HotkeyIsOneLine(LoadLines(options, lines).value)
  {
    var text := NameOf(Hotkey) + "=" + v + "\n" + rest;
    var first := Before(v, '\n');
    var line := NameOf(Hotkey) + "=" + first;
    FindIsFirst(v, '\n');
    BeforeIsClean(v, '\n');
    NameIsWord(Hotkey);
    WordFacts(NameOf(Hotkey));
    var next := if Find(v, '\n').None? then rest else v[|first| + 1..] + "\n" + rest;
    assert text == line + "\n" + next by {
      if Find(v, '\n').Some? { assert v == first + "\n" + v[|first| + 1..]; }
    }
    LinesOfFirst(line, next);
    LinesAreOneLiners(next);
    assert ([line] + Lines(next))[1..] == Lines(next);
    LoadsSetting(options, Hotkey, first);
    HotkeyValueIsPart(first);
    if LoadLines(options, [line] + Lines(next)).Some? {
      LinesKeepHotkeyOneLine(LoadLine(options, line).value, Lines(next));
    }
  }

  lemma HotkeyValueIsPart(v: string)
    requires '\n' !in v
    ensures '\n' !in CStr(WithoutComment(Trim(TrimRight(v))))
  {
    var _ := TrimRightKeepsPrefix(v);
    var trimmed := Trim(TrimRight(v));
    Trimmed(TrimRight(v));
    BeforeIsClean(trimmed, '#');
    Trimmed(Before(trimmed, '#'));
    BeforeIsClean(WithoutComment(trimmed), '\0');
  }

  lemma {:induction false} RenderedAppend(saved: Options, a: seq<Item>, b: seq<Item>)
    ensures Rendered(saved, a + b) == Rendered(saved, a) + Rendered(saved, b)
  {
    if a == [] {
      assert a + b == b;
    } else {
      RenderedAppend(saved, a[1..], b);
      assert (a + b)[0] == a[0] && (a + b)[1..] == a[1..] + b;
      Regroup(Render(saved, a[0]), Rendered(saved, a[1..]), Rendered(saved, b));
    }
  }

  lemma Regroup(line: string, more: seq<string>, rest: seq<string>)
    ensures [line] + (more + rest) == ([line] + more) + rest
  {
  }

  lemma {:induction false} LoadLinesAppend(options: Options, a: seq<string>, b: seq<string>)
    requires LoadLines(options, a).Some?
    ensures LoadLines(options, a + b) == LoadLines(LoadLines(options, a).value, b)
    decreases |a|
  {
    if a == [] {
      assert a + b == b;
    } else {
      LoadLinesAppend(LoadLine(options, a[0]).value, a[1..], b);
      assert (a + b)[1..] == a[1..] + b;
    }
  }

  // The lines before the hotkey: comments, an empty line and a section header.
  function Preamble(): seq<string> {
    [
      "# Structor Configuration", "# See https://github.com/" + "AnomalyCo/structor" + " for documentation", "",
      "[General]"
    ]
  }

  lemma PreambleIsIgnored(options: Options)
    ensures OneLiners(Preamble()) && LoadLines(options, Preamble()) == Some(options)
  {
    PlainTexts();
    LinkIsIgnored();
    var p := Preamble();
    IgnoredFirst(options, p[3], []);
    IgnoredFirst(options, p[2], [p[3]]);
    IgnoredFirst(options, p[1], [p[2], p[3]]);
    IgnoredFirst(options, p[0], [p[1], p[2], p[3]]);
    assert p == [p[0]] + ([p[1]] + ([p[2]] + ([p[3]] + [])));
  }

  lemma IgnoredFirst(options: Options, text: string, rest: seq<string>)
    requires IsIgnored(text)
    ensures LoadLines(options, [text] + rest) == LoadLines(options, rest)
    ensures OneLiners(rest) ==> OneLiners([text] + rest)
  {
    LoadsIgnored(options, text);
    assert ([text] + rest)[1..] == rest;
  }

  // The hotkey's line follows the preamble, and other lines follow it.
  lemma SaveTextShape(saved: Options) returns (rest: string)
    requires Hotkey in saved && saved[Hotkey].Text?
    ensures SaveText(saved) == Join(Preamble()) + (NameOf(Hotkey) + "=" + CStr(saved[Hotkey].text) + "\n" + rest)
  {
    var front := Header() + [Plain("[General]")];
    var back := General()[2..] + TypeFix() + Synthesis() + Propagation() + UserInterface() + Solver();
    assert Layout() == front + ([Setting(Hotkey)] + back);
    rest := Join(Rendered(saved, back));
    var line := NameOf(Hotkey) + "=" + CStr(saved[Hotkey].text);
    RenderedAppend(saved, front, [Setting(Hotkey)] + back);
    RenderedAppend(saved, [Setting(Hotkey)], back);
    PreambleIsRendered(saved);
    assert Rendered(saved, [Setting(Hotkey)]) == [line];
    JoinAppend(Preamble(), [line] + Rendered(saved, back));
    JoinFirst([line] + Rendered(saved, back), "");
    assert ([line] + Rendered(saved, back))[1..] == Rendered(saved, back);
    assert Join([line] + Rendered(saved, back)) == line + "\n" + rest;
  }

  lemma PreambleIsRendered(saved: Options)
    ensures Rendered(saved, Header() + [Plain("[General]")]) == Preamble()
  {
    var p := Header() + [Plain("[General]")];
    assert p[1..] == [p[1], p[2], p[3]] && p[1..][1..] == [p[2], p[3]] && p[1..][1..][1..] == [p[3]];
    assert Rendered(saved, [p[3]]) == [Preamble()[3]];
    assert Rendered(saved, [p[2], p[3]]) == [Preamble()[2], Preamble()[3]];
    assert Rendered(saved, [p[1], p[2], p[3]]) == [Preamble()[1], Preamble()[2], Preamble()[3]];
  }

  lemma LineEndIsLost(options: Options, saved: Options)
    requires Typed(saved) && '\n' in saved[Hotkey].text
    ensures LoadText(options, SaveText(saved)) != Some(saved)
  {
    var rest := SaveTextShape(saved);
    var tail := NameOf(Hotkey) + "=" + CStr(saved[Hotkey].text) + "\n" + rest;
    PreambleIsIgnored(options);
    LinesOfJoin(Preamble(), tail);
    LoadLinesAppend(options, Preamble(), Lines(tail));
    HotkeyLineDecides(options, CStr(saved[Hotkey].text), rest);
  }

  // The central property of save and load: for valid options, loading what save
  // wrote restores every persisted option, whatever was in force before, exactly if
  // a line can carry the hotkey.
  lemma SaveThenLoadRestores(options: Options, saved: Options)
    requires Typed(saved) && IsValid(saved)
    ensures LoadText(options, SaveText(saved)) == Some(saved) <==> IsClean(saved[Hotkey].text)
  {
    var hotkey := saved[Hotkey].text;
    if '\n' in CStr(hotkey) {
      BeforeIsClean(hotkey, '\0');
      LineEndIsLost(options, saved);
    } else {
      forall key: Key ensures IsLoadable(KindOf(key), saved[key]) { ValidIsLoadable(saved, key); }
      LoadsWhatWasSaved(options, saved);
      EchoIsExactForClean(hotkey);
      assert Echoed(saved)[Hotkey] == Text(Echo(hotkey));
      if Echo(hotkey) == hotkey { assert Echoed(saved) == saved; }
    }
  }

  // ---- Defaults ----------------------------------------------------------------------------

  function DefaultOf(key: Key): Value {
    match key
    case Hotkey => Text("Shift+S")
    case MinAccesses | Z3WeightPreferNonUnion => Number(2)
    case Alignment | Z3MaxUnionAlternatives => Number(8)
    case InteractiveMode | DebugMode | AutoFixVerbose => Flag(false)
    case HighlightDurationMs => Number(2000)
    case MaxPropagationDepth | Z3MinArrayElements => Number(3)
    case Z3Mode => Mode(Preferred)
    case Z3TimeoutMs => Number(5000)
    case Z3MemoryLimitMb => Number(0)
    case Z3MaxArrayStride | Z3MaxFields => Number(4096)
    case Z3MaxAccesses => Number(10000)
    case Z3MaxCandidates => Number(1000)
    case Z3MaxArrayElements => Number(1024)
    case Z3MaxStructureSize => Number(0x10000)
    case Z3MaxConstraintPairs => Number(500000)
    case Z3MinConfidence => Number(20)
    case Z3MaxRelaxIterations => Number(5)
    case Z3WeightMinimizePadding => Number(1)
    case _ => Flag(true)
  }

  function DefaultOptions(): Options {
    map key | key in AllKeys() :: DefaultOf(key)
  }

  ghost predicate HoldsDefaults(options: Options) {
    forall key: Key :: key in options && options[key] == DefaultOf(key)
  }

  lemma DefaultOptionsHoldDefaults()
    ensures HoldsDefaults(DefaultOptions())
  {
    forall key: Key ensures key in DefaultOptions()
        && DefaultOptions()[key] == DefaultOf(key) { EveryKeyIsListed(key); }
  }

  lemma DefaultsAreTyped(options: Options)
    requires HoldsDefaults(options)
    ensures Typed(options)
  {
  }

  lemma DefaultThresholds(options: Options)
    requires HoldsDefaults(options)
    ensures Num(options, Alignment) == 8 && Num(options, MinAccesses) == 2 && Num(options, MaxPropagationDepth) == 3
  {
  }

  lemma DefaultHardLimits(options: Options)
    requires HoldsDefaults(options)
    ensures Num(options, Z3MaxAccesses) > 0 && Num(options, Z3MaxCandidates) > 0 && Num(options, Z3MaxFields) > 0
  {
  }

  lemma DefaultSizeLimits(options: Options)
    requires HoldsDefaults(options)
    ensures Num(options, Z3MaxStructureSize) > 0 && Num(options, Z3MaxConstraintPairs) > 0
    ensures Num(options, Z3MaxUnionAlternatives) > 0
  {
  }

  lemma DefaultArrayLimits(options: Options)
    requires HoldsDefaults(options)
    ensures Num(options, Z3MaxArrayElements) == 1024 && Num(options, Z3MinArrayElements) == 3
    ensures Num(options, Z3MaxArrayStride) > 0
  {
  }

  lemma DefaultWeights(options: Options)
    requires HoldsDefaults(options)
    ensures Num(options, Z3MinConfidence) == 20
    ensures Num(options, Z3WeightMinimizePadding) >= 0 && Num(options, Z3WeightPreferNonUnion) >= 0
  {
  }

  lemma DefaultsAreValid(options: Options)
    requires HoldsDefaults(options)
    ensures IsValid(options)
  {
    DefaultThresholds(options);
    DefaultHardLimits(options);
    DefaultSizeLimits(options);
    DefaultArrayLimits(options);
    DefaultWeights(options);
    EightIsAPowerOfTwo();
    assert IsValidAbiAlignment(Num(options, Alignment));
  }

  lemma DefaultHotkeyIsClean()
    ensures DefaultOf(Hotkey).Text? && IsClean(DefaultOf(Hotkey).text)
  {
  }

  // The defaults are valid and a line can carry their hotkey, so the file that is
  // written when there is none restores them.
  lemma DefaultsAreRestored(options: Options, defaults: Options)
    requires HoldsDefaults(defaults)
    ensures LoadText(options, SaveText(defaults)) == Some(defaults)
  {
    DefaultsAreTyped(defaults);
    DefaultsAreValid(defaults);
    DefaultHotkeyIsClean();
    SaveThenLoadRestores(options, defaults);
  }

  lemma EightIsAPowerOfTwo()
    ensures IsValidAbiAlignment(8)
  {
    assert Pow2(3) == 8;
    PowerOfTwoTest(8);
  }

  // ---- The manager -----------------------------------------------------------------------

  datatype FileState = NoPath | Missing | Unreadable | Readable(text: string, broken: bool)

  class Config {
    var options: Options
    var dirty: bool

    ghost predicate Valid()
      reads this
    {
      Typed(options)
    }

    constructor ()
      ensures Valid() && HoldsDefaults(options) && !dirty
    {
      DefaultOptionsHoldDefaults();
      DefaultsAreTyped(DefaultOptions());
      options, dirty := DefaultOptions(), false;
    }

    method Reset()
      modifies this
      ensures Valid() && HoldsDefaults(options) && dirty
    {
      DefaultOptionsHoldDefaults();
      DefaultsAreTyped(DefaultOptions());
      options, dirty := DefaultOptions(), true;
    }

    method SetOptions(next: Options) returns (ok: bool)
      requires Valid() && Typed(next)
      modifies this
      ensures Valid() && (ok <==> IsValid(next))
      ensures ok ==> options == next && dirty
      ensures !ok ==> options == old(options) && dirty == old(dirty)
    {
      if !IsValid(next) {
        return false;
      }
      options, dirty, ok := next, true, true;
    }

    // Succeeds exactly if the options are valid, there is a path and every step in
    // the directory succeeds. A save that fails leaves every file but the temporary
    // one as it was; at every moment the file has its old content or all of the new
    // one.
    method Save(path: Option<string>, nonce: nat, folder: Folder, steps: Steps) returns (ok: bool)
      requires Valid()
      modifies this`dirty, folder
      ensures ok <==> IsValid(options) && path.Some? && steps.directories && IsReplaced(steps)
      ensures dirty == (old(dirty) && !ok)
      ensures ok ==>
          folder.files == (old(folder.files) - {TemporaryOf(path.value, nonce)})[path.value := SaveText(options)]
      ensures !ok && path.Some? ==> SameFilesExcept(old(folder.files), folder.files, TemporaryOf(path.value, nonce))
      ensures path.None? || !IsValid(options) || !steps.directories ==> folder.files == old(folder.files)
      ensures !ok && path.Some? && IsValid(options) && steps.directories && steps.discards ==>
          TemporaryOf(path.value, nonce) !in folder.files
      ensures path.Some? ==>
          OldOrNew(folder.history, |old(folder.history)|, path.value, old(Lookup(folder.files, path.value)),
                   SaveText(options))
    {
      if !IsValid(options) || path.None? || !steps.directories {
        return false;
      }
      ok := folder.Replace(path.value, TemporaryOf(path.value, nonce), SaveText(options), steps);
      if ok {
        dirty := false;
      }
    }

    // A file that can be read is loaded whole or not at all. A missing file is
    // written with the options in force; one that cannot be read is left alone.
    method Load(file: FileState, path: string, nonce: nat, folder: Folder, steps: Steps) returns (ok: bool)
      requires Valid()
      modifies this, folder
      ensures Valid()
      ensures file.Readable? ==>
                && (ok <==> !file.broken && LoadText(old(options), file.text).Some?)
                && (ok ==> LoadText(old(options), file.text) == Some(options) && IsValid(options) && !dirty)
                && (!ok ==> options == old(options) && dirty == old(dirty))
      ensures file.NoPath? || file.Unreadable? ==> !ok && options == old(options) && dirty == old(dirty)
      ensures !file.Missing? ==> folder.files == old(folder.files)
      ensures file.Missing? ==>
                && options == old(options) && dirty == !ok
                && (ok <==> IsValid(options) && steps.directories && IsReplaced(steps))
                && (ok ==> path in folder.files && folder.files[path] == SaveText(options))
                && (!ok ==> SameFilesExcept(old(folder.files), folder.files, TemporaryOf(path, nonce)))
    {
      ok := false;
      match file
      case NoPath =>
      case Unreadable =>
      case Missing =>
        dirty := true;
        ok := Save(Some(path), nonce, folder, steps);
      case Readable(text, broken) =>
        var previous, previousDirty := options, dirty;
        var rest := text;
        while rest != ""
          invariant LoadLines(previous, Lines(text)) == LoadLines(options, Lines(rest))
          invariant Valid() && dirty == previousDirty && folder.files == old(folder.files)
          decreases |rest|
        {
          var line := GetLine(rest).0;
          var loaded := LoadLine(options, line);
          if loaded.None? {
            options, dirty := previous, previousDirty;
            return;
          }
          LoadLineKeepsTypes(options, line);
          rest := GetLine(rest).1;
          options := loaded.value;
        }
        if broken || !IsValid(options) {
          options, dirty := previous, previousDirty;
          return;
        }
        dirty := false;
        ok := true;
    }
  }

  // Save writes beside the file and renames.
  function TemporaryOf(path: string, nonce: nat): (name: string)
    ensures name != path
  {
    assert |path + ".tmp."| > |path|;
    path + ".tmp." + PrintNat(nonce)
  }

  lemma ParsedHasType(kind: Kind, v: string)
    requires ParseValue(kind, v).Some?
    ensures HasType(kind, ParseValue(kind, v).value)
  {
  }

  lemma AssignmentKeepsTypes(options: Options, key: Key, v: string)
    requires Typed(options)
    ensures ParseValue(KindOf(key), v).Some? ==> Typed(options[key := ParseValue(KindOf(key), v).value])
  {
    if ParseValue(KindOf(key), v).Some? { ParsedHasType(KindOf(key), v); }
  }

  lemma LoadLineKeepsTypes(options: Options, line: string)
    requires Typed(options) && LoadLine(options, line).Some?
    ensures Typed(LoadLine(options, line).value)
  {
    var t := Trim(line);
    var i := Find(t, '=');
    if i.Some? {
      var key := KeyOf(Trim(t[..i.value]));
      if key.Some? { AssignmentKeepsTypes(options, key.value, WithoutComment(Trim(t[i.value + 1..]))); }
    }
  }
}
