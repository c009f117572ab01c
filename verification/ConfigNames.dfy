// The keys of the configuration file: their names are words, and no two names are
// the same.
module ConfigNames {
  import opened Machine

  datatype Key =
    | Hotkey | AutoPropagate | VtableDetection | MinAccesses
    | Alignment | InteractiveMode | HighlightChanges | HighlightDurationMs
    | AutoOpenStruct | GenerateComments | MaxPropagationDepth | PropagateToCallers
    | PropagateToCallees | EmitSubstructs | DebugMode | AutoFixTypes
    | AutoFixVerbose | Z3Mode | Z3TimeoutMs | Z3MemoryLimitMb
    | Z3EnableMaxsmt | Z3EnableUnsatCore | Z3DetectArrays | Z3MinArrayElements
    | Z3DetectSymbolicArrays | Z3MaxArrayStride | Z3CrossFunction | Z3MaxAccesses
    | Z3MaxCandidates | Z3MaxFields | Z3MaxArrayElements | Z3MaxStructureSize
    | Z3MaxConstraintPairs | Z3AllowUnions | Z3MaxUnionAlternatives | Z3MinConfidence
    | Z3RelaxOnUnsat | Z3MaxRelaxIterations | Z3WeightMinimizePadding | Z3WeightPreferNonUnion

  function NameOf(key: Key): string {
    match key
    case Hotkey => "hotkey"
    case AutoPropagate => "auto_propagate"
    case VtableDetection => "vtable_detection"
    case MinAccesses => "min_accesses"
    case Alignment => "alignment"
    case InteractiveMode => "interactive_mode"
    case HighlightChanges => "highlight_changes"
    case HighlightDurationMs => "highlight_duration_ms"
    case AutoOpenStruct => "auto_open_struct"
    case GenerateComments => "generate_comments"
    case MaxPropagationDepth => "max_propagation_depth"
    case PropagateToCallers => "propagate_to_callers"
    case PropagateToCallees => "propagate_to_callees"
    case EmitSubstructs => "emit_substructs"
    case DebugMode => "debug_mode"
    case AutoFixTypes => "auto_fix_types"
    case AutoFixVerbose => "auto_fix_verbose"
    case Z3Mode => "z3_mode"
    case Z3TimeoutMs => "z3_timeout_ms"
    case Z3MemoryLimitMb => "z3_memory_limit_mb"
    case Z3EnableMaxsmt => "z3_enable_maxsmt"
    case Z3EnableUnsatCore => "z3_enable_unsat_core"
    case Z3DetectArrays => "z3_detect_arrays"
    case Z3MinArrayElements => "z3_min_array_elements"
    case Z3DetectSymbolicArrays => "z3_detect_symbolic_arrays"
    case Z3MaxArrayStride => "z3_max_array_stride"
    case Z3CrossFunction => "z3_cross_function"
    case Z3MaxAccesses => "z3_max_accesses"
    case Z3MaxCandidates => "z3_max_candidates"
    case Z3MaxFields => "z3_max_fields"
    case Z3MaxArrayElements => "z3_max_array_elements"
    case Z3MaxStructureSize => "z3_max_structure_size"
    case Z3MaxConstraintPairs => "z3_max_constraint_pairs"
    case Z3AllowUnions => "z3_allow_unions"
    case Z3MaxUnionAlternatives => "z3_max_union_alternatives"
    case Z3MinConfidence => "z3_min_confidence"
    case Z3RelaxOnUnsat => "z3_relax_on_unsat"
    case Z3MaxRelaxIterations => "z3_max_relax_iterations"
    case Z3WeightMinimizePadding => "z3_weight_minimize_padding"
    case Z3WeightPreferNonUnion => "z3_weight_prefer_non_union"
  }

  // The keys in the order in which load compares a line's key with them.
  function AllKeys(): seq<Key> {
    [
      Hotkey, AutoPropagate, VtableDetection, MinAccesses, Alignment, InteractiveMode, HighlightChanges,
      HighlightDurationMs, AutoOpenStruct, GenerateComments, MaxPropagationDepth, PropagateToCallers,
      PropagateToCallees, EmitSubstructs, DebugMode, AutoFixTypes, AutoFixVerbose, Z3Mode, Z3TimeoutMs,
      Z3MemoryLimitMb, Z3EnableMaxsmt, Z3EnableUnsatCore, Z3DetectArrays, Z3MinArrayElements,
      Z3DetectSymbolicArrays, Z3MaxArrayStride, Z3CrossFunction, Z3MaxAccesses, Z3MaxCandidates, Z3MaxFields,
      Z3MaxArrayElements, Z3MaxStructureSize, Z3MaxConstraintPairs, Z3AllowUnions, Z3MaxUnionAlternatives,
      Z3MinConfidence, Z3RelaxOnUnsat, Z3MaxRelaxIterations, Z3WeightMinimizePadding, Z3WeightPreferNonUnion
    ]
  }

  function FindKey(keys: seq<Key>, name: string): Option<Key> {
    if keys == [] then None
    else if name == NameOf(keys[0]) then Some(keys[0])
    else FindKey(keys[1..], name)
  }

  function KeyOf(name: string): Option<Key> {
    FindKey(AllKeys(), name)
  }

  predicate IsWordChar(c: char) {
    'a' <= c <= 'z' || '0' <= c <= '9' || c == '_'
  }

  ghost predicate IsWord(name: string) {
    name != "" && forall i :: 0 <= i < |name| ==> IsWordChar(name[i])
  }

  // The names are told apart by their length and two of their characters.
  function Mark(s: string): int
    requires |s| > 4
  {
    |s| * 65536 + (s[4] as int) * 256 + s[|s| - 2] as int
  }

  // Mark(NameOf(key)) of each key as a number, so that the names can be told apart by
  // comparing numbers; HasMark says that the numbers are right.
  function MarkOf(key: Key): int {
    match key
    case Hotkey => 419173
    case AutoPropagate => 941940
    case VtableDetection => 1076335
    case MinAccesses => 811365
    case Alignment => 618094
    case InteractiveMode => 1077860
    case HighlightChanges => 1141861
    case HighlightDurationMs => 1404013
    case AutoOpenStruct => 1072995
    case GenerateComments => 1143412
    case MaxPropagationDepth => 1405044
    case PropagateToCallers => 1335666
    case PropagateToCallees => 1335653
    case EmitSubstructs => 1007476
    case DebugMode => 681828
    case AutoFixTypes => 941925
    case AutoFixVerbose => 1073011
    case Z3Mode => 487268
    case Z3TimeoutMs => 878957
    case Z3MemoryLimitMb => 1205613
    case Z3EnableMaxsmt => 1076845
    case Z3EnableUnsatCore => 1338994
    case Z3DetectArrays => 1074553
    case Z3MinArrayElements => 1403252
    case Z3DetectSymbolicArrays => 1664377
    case Z3MaxArrayStride => 1270116
    case Z3CrossFunction => 1143407
    case Z3MaxAccesses => 1007973
    case Z3MaxCandidates => 1139045
    case Z3MaxFields => 876900
    case Z3MaxArrayElements => 1401204
    case Z3MaxStructureSize => 1401210
    case Z3MaxConstraintPairs => 1532274
    case Z3AllowUnions => 1010798
    case Z3MaxUnionAlternatives => 1663333
    case Z3MinConfidence => 1141091
    case Z3RelaxOnUnsat => 1140065
    case Z3MaxRelaxIterations => 1532270
    case Z3WeightMinimizePadding => 1729902
    case Z3WeightPreferNonUnion => 1729903
  }

  predicate HasMark(key: Key) {
    |NameOf(key)| > 4 && Mark(NameOf(key)) == MarkOf(key)
  }

  ghost predicate IsMarkedWord(key: Key) {
    IsWord(NameOf(key)) && HasMark(key)
  }

  // Few names at a time, to keep each lemma small.
  lemma GeneralNames()
    ensures IsMarkedWord(Hotkey) && IsMarkedWord(InteractiveMode)
    ensures IsMarkedWord(AutoOpenStruct) && IsMarkedWord(DebugMode)
  {
  }

  lemma TypeFixNames()
    ensures IsMarkedWord(AutoFixTypes) && IsMarkedWord(AutoFixVerbose)
  {
  }

  lemma SynthesisNames()
    ensures IsMarkedWord(MinAccesses) && IsMarkedWord(Alignment)
    ensures IsMarkedWord(VtableDetection) && IsMarkedWord(EmitSubstructs)
  {
  }

  lemma PropagationNames()
    ensures IsMarkedWord(AutoPropagate) && IsMarkedWord(MaxPropagationDepth)
  {
  }

  lemma PropagationTargetNames()
    ensures IsMarkedWord(PropagateToCallers) && IsMarkedWord(PropagateToCallees)
  {
  }

  lemma HighlightNames()
    ensures IsMarkedWord(HighlightChanges) && IsMarkedWord(HighlightDurationMs)
  {
  }

  lemma CommentAndModeNames()
    ensures IsMarkedWord(GenerateComments) && IsMarkedWord(Z3Mode)
  {
  }

  lemma SolverResourceNames()
    ensures IsMarkedWord(Z3TimeoutMs) && IsMarkedWord(Z3MemoryLimitMb)
  {
  }

  lemma SolverFeatureNames()
    ensures IsMarkedWord(Z3EnableMaxsmt) && IsMarkedWord(Z3EnableUnsatCore)
  {
  }

  lemma ArrayDetectionNames()
    ensures IsMarkedWord(Z3DetectArrays) && IsMarkedWord(Z3CrossFunction)
  {
  }

  lemma SymbolicArrayNames()
    ensures IsMarkedWord(Z3DetectSymbolicArrays)
  {
  }

  lemma ArrayBoundNames()
    ensures IsMarkedWord(Z3MinArrayElements) && IsMarkedWord(Z3MaxArrayStride)
  {
  }

  lemma CountLimitNames()
    ensures IsMarkedWord(Z3MaxAccesses) && IsMarkedWord(Z3MaxCandidates) && IsMarkedWord(Z3MaxFields)
  {
  }

  lemma SizeLimitNames()
    ensures IsMarkedWord(Z3MaxArrayElements) && IsMarkedWord(Z3MaxStructureSize)
  {
  }

  lemma PairLimitNames()
    ensures IsMarkedWord(Z3MaxConstraintPairs)
  {
  }

  lemma UnionNames()
    ensures IsMarkedWord(Z3AllowUnions) && IsMarkedWord(Z3MaxUnionAlternatives)
  {
  }

  lemma RelaxationNames()
    ensures IsMarkedWord(Z3MinConfidence) && IsMarkedWord(Z3RelaxOnUnsat)
  {
  }

  lemma IterationNames()
    ensures IsMarkedWord(Z3MaxRelaxIterations)
  {
  }

  lemma PaddingWeightNames()
    ensures IsMarkedWord(Z3WeightMinimizePadding)
  {
  }

  lemma UnionWeightNames()
    ensures IsMarkedWord(Z3WeightPreferNonUnion)
  {
  }

  lemma NameIsMarkedWord(key: Key)
    ensures IsMarkedWord(key)
  {
    GeneralNames(); TypeFixNames(); SynthesisNames(); PropagationNames(); PropagationTargetNames();
    HighlightNames(); CommentAndModeNames(); SolverResourceNames(); SolverFeatureNames();
    ArrayDetectionNames(); SymbolicArrayNames(); ArrayBoundNames(); CountLimitNames(); SizeLimitNames();
    PairLimitNames(); UnionNames(); RelaxationNames(); IterationNames(); PaddingWeightNames();
    UnionWeightNames();
  }

  lemma NameIsWord(key: Key)
    ensures IsWord(NameOf(key))
  {
    NameIsMarkedWord(key);
  }

  lemma LowMarksDiffer(a: Key, b: Key)
    requires MarkOf(a) == MarkOf(b) < 1076335
    ensures a == b
  {
  }

  lemma HighMarksDiffer(a: Key, b: Key)
    requires MarkOf(a) == MarkOf(b) >= 1076335
    ensures a == b
  {
  }

  lemma NamesDiffer(a: Key, b: Key)
    ensures NameOf(a) == NameOf(b) <==> a == b
  {
    NameIsMarkedWord(a);
    NameIsMarkedWord(b);
    if NameOf(a) == NameOf(b) {
      if MarkOf(a) < 1076335 { LowMarksDiffer(a, b); } else { HighMarksDiffer(a, b); }
    }
  }

  lemma EveryKeyIsListed(key: Key)
    ensures key in AllKeys()
  {
  }

  lemma {:induction false} FindsListed(keys: seq<Key>, key: Key)
    requires key in keys
    ensures FindKey(keys, NameOf(key)) == Some(key)
  {
    NamesDiffer(key, keys[0]);
    if key != keys[0] {
      assert keys == [keys[0]] + keys[1..];
      FindsListed(keys[1..], key);
    }
  }

  // The key that load finds for a name is the key that save wrote under it.
  lemma KeyOfName(key: Key)
    ensures KeyOf(NameOf(key)) == Some(key)
  {
    EveryKeyIsListed(key);
    FindsListed(AllKeys(), key);
  }
}
