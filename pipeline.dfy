/**
 * The script's analysis from a parsed document: register every element, extract the
 * dependencies, file the implicit lines, and collect the `#` variables.
 */
module Pipeline {
  import opened Wrappers
  import opened OrderedMaps
  import opened Elements
  import opened Categorize
  import opened Extraction
  import opened Queries

  /** What the script has computed when it starts reporting. */
  datatype Analysis = Analysis(objectsByType: ByType, dependencies: Deps, hashVariables: seq<string>)

  /** The analysis once the registry `reg` of the document is built and its dependencies are extracted. */
  function Finish(reg: ByType, ex: Extraction): Analysis {
    var reg' := WithImplicitLines(reg, ex.implicitLines);
    Analysis(reg', ex.deps, HashKeys(reg', |reg'.keys|))
  }

  /** The analysis of the document rooted at `root` as the script computes it, or the error that stops it. */
  function Analyze(root: Element): Result<Analysis, ExtractError> {
    var reg := Walk(Empty(), root);
    var ex := Extract(reg);
    if ex.Failure? then Failure(ex.error) else Success(Finish(reg, ex.value))
  }

  /** The analysis with the extraction read over a snapshot of the registry, as evidently intended. */
  function AnalyzeSnapshot(root: Element): (r: Analysis)
    ensures ValidByType(r.objectsByType) && Valid(r.dependencies)
  {
    var reg := Walk(Empty(), root);
    WalkValid(Empty(), root);
    WithImplicitLinesValid(reg, Snapshot(reg).implicitLines);
    Finish(reg, Snapshot(reg))
  }

  /** The script stops exactly when some reference breaks the iteration; otherwise it computes the snapshot analysis. */
  lemma AnalyzeIsSnapshot(root: Element)
    ensures Analyze(root).Failure? <==> Raises(Walk(Empty(), root))
    ensures Analyze(root).Success? ==> Analyze(root).value == AnalyzeSnapshot(root)
  {
    ExtractFails(Walk(Empty(), root));
  }

  /** The script body from `categorize_elements(root)` to the `#` scan. */
  method Run(root: Element) returns (r: Result<Analysis, ExtractError>)
    ensures r == Analyze(root)
    ensures r.Success? ==> ValidByType(r.value.objectsByType) && Valid(r.value.dependencies)
  {
    var store := new ObjectStore();
    store.Categorize(root);
    var extracted := ExtractDependencies(store.objectsByType);
    ExtractFails(store.objectsByType);
    if extracted.Failure? {
      return Failure(extracted.error);
    }
    store.AddImplicitLines(extracted.value.implicitLines);
    var hashVariables := HashVariables(store.objectsByType);
    r := Success(Analysis(store.objectsByType, extracted.value.deps, hashVariables));
  }

  /**
   * The registry the analysis reports: the elements in pre-order each filed under its key,
   * then the implicit lines; every implicit line is a `line` entry unknown to the document.
   */
  lemma AnalysisRegistry(root: Element, l: string)
    ensures AnalyzeSnapshot(root).objectsByType ==
      WithImplicitLines(RegisterAll(Empty(), PreOrder(root)), Snapshot(Walk(Empty(), root)).implicitLines)
    ensures l in Snapshot(Walk(Empty(), root)).implicitLines ==>
      Get2(Walk(Empty(), root), "line", l) == None &&
      Get2(AnalyzeSnapshot(root).objectsByType, "line", l) == Some(ImplicitAttrs())
  {
    var reg := Walk(Empty(), root);
    WalkIsPreOrder(Empty(), root);
    if l in Snapshot(reg).implicitLines {
      SnapshotImplicitLines(reg, l);
      ImplicitLinesRegistered(reg, Snapshot(reg).implicitLines, "line", l);
    }
  }

  /**
   * The document with one point `A` whose `length` is `Line_A_B` and no line: the script as
   * written stops with "dictionary changed size during iteration", while the corrected
   * analysis records `A` as a user of `Line_A_B` and files that line as implicit.
   */
  lemma LineReferencePatternAnalysis()
    ensures Analyze(LineReferencePattern).Failure?
    ensures AnalyzeSnapshot(LineReferencePattern).dependencies ==
      OMap(["A", "Line_A_B"], map["A" := ["A"], "Line_A_B" := ["A"]])
    ensures Get2(AnalyzeSnapshot(LineReferencePattern).objectsByType, "line", "Line_A_B") == Some(ImplicitAttrs())
  {
    LineReferencePatternRegistry();
    LineReferenceWithoutLines();
    ImplicitLinesRegistered(LineReferenceRegistry, ["Line_A_B"], "line", "Line_A_B");
  }
}
