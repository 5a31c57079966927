/**
  What the two HTTP handlers add around the analysis: the `.tex` filename check, and the
  optional word and reference limits read from the query string, each turned into a
  constraint record with `withinLimit`, `overBy` and `remaining`.

  JavaScript's `Number(text)` is a parameter, `number`, that gives `None` where `Number`
  gives `NaN`; limits are `real`, as a JavaScript number may be fractional or negative.
 */
module Handlers {
  import opened Wrappers
  import opened Analyzer

  /** One entry of the `constraints` record. */
  datatype Constraint = Constraint(limit: real, withinLimit: bool, overBy: real, remaining: real)

  /** `Math.max` */
  function Max(a: real, b: real): (m: real)
    ensures m >= a && m >= b && (m == a || m == b)
  {
    if a >= b then a else b
  }

  /** A count measured against a limit: `overBy` and `remaining` are the two clamps at zero. */
  function Derive(count: nat, limit: real): (c: Constraint)
    ensures c.limit == limit
    ensures c.withinLimit <==> count as real <= limit
    ensures c.overBy >= 0.0 && c.remaining >= 0.0
    ensures c.overBy == 0.0 || c.remaining == 0.0
    ensures c.overBy - c.remaining == count as real - limit
    ensures c.withinLimit <==> c.overBy == 0.0
  {
    Constraint(limit, count as real <= limit, Max(0.0, count as real - limit), Max(0.0, limit - count as real))
  }

  /** The count the reference limit is checked against: the larger of the two reference counts. */
  function TotalReferences(refs: References): (t: nat)
    ensures t >= refs.bibItems && t >= refs.uniqueCiteKeys
    ensures t == refs.bibItems || t == refs.uniqueCiteKeys
  {
    if refs.bibItems >= refs.uniqueCiteKeys then refs.bibItems else refs.uniqueCiteKeys
  }

  /**
    The limit a query parameter gives: none when the parameter is absent or empty (the
    worker's `!== null && !== ''`, the server's truthiness test), or when it is not a number.
   */
  function LimitOf(param: Option<string>, number: string -> Option<real>): (r: Option<real>)
    ensures r.Some? <==> param.Some? && param.value != "" && number(param.value).Some?
    ensures r.Some? ==> r == number(param.value)
  {
    if param.Some? && param.value != "" then number(param.value) else None
  }

  /** `name.endsWith(suffix)` */
  predicate EndsWith(name: string, suffix: string)
  {
    |suffix| <= |name| && name[|name| - |suffix|..] == suffix
  }

  /** What a handler hands to the multipart reader: no file part, or a named file. */
  datatype Upload = NoFile | File(name: string, content: string)

  /** A 400 response with its error message, or the report. */
  datatype Response =
    | Rejected(status: nat, error: string)
    | Report(filename: string, result: AnalysisResult, constraints: map<string, Constraint>)

  const MissingFile := "Missing file"
  const OnlyTex := "Only .tex files are supported"

  /**
    The `constraints` record a report carries: no key but `wordLimit` and `maxReferences`, each
    present exactly when its limit exists, and derived from the words or from the reference total.
   */
  predicate ConstraintsFor(constraints: map<string, Constraint>, result: AnalysisResult, wordLimit: Option<string>,
                           maxReferences: Option<string>, number: string -> Option<real>)
  {
    constraints.Keys <= {"wordLimit", "maxReferences"} &&
    ("wordLimit" in constraints <==> LimitOf(wordLimit, number).Some?) &&
    ("wordLimit" in constraints ==>
      constraints["wordLimit"] == Derive(result.words, LimitOf(wordLimit, number).value)) &&
    ("maxReferences" in constraints <==> LimitOf(maxReferences, number).Some?) &&
    ("maxReferences" in constraints ==>
      constraints["maxReferences"] == Derive(TotalReferences(result.references), LimitOf(maxReferences, number).value))
  }

  /** The two `if` blocks that write into the `constraints` record. */
  method AttachConstraints(result: AnalysisResult, wordLimit: Option<string>, maxReferences: Option<string>,
                           number: string -> Option<real>)
    returns (constraints: map<string, Constraint>)
    ensures ConstraintsFor(constraints, result, wordLimit, maxReferences, number)
  {
    constraints := map[];
    if wordLimit.Some? && wordLimit.value != "" {
      var limit := number(wordLimit.value);
      if limit.Some? {
        constraints := constraints["wordLimit" := Derive(result.words, limit.value)];
      }
    }
    if maxReferences.Some? && maxReferences.value != "" {
      var limit := number(maxReferences.value);
      if limit.Some? {
        var totalRefs := TotalReferences(result.references);
        constraints := constraints["maxReferences" := Derive(totalRefs, limit.value)];
      }
    }
  }

  /** The worker's `/api/analyze` branch of `fetch`. */
  method WorkerAnalyze(upload: Upload, wordLimit: Option<string>, maxReferences: Option<string>,
                       number: string -> Option<real>)
    returns (response: Response)
    ensures upload.NoFile? ==> response == Rejected(400, MissingFile)
    ensures upload.File? && !EndsWith(upload.name, ".tex") ==> response == Rejected(400, OnlyTex)
    ensures upload.File? && EndsWith(upload.name, ".tex") ==>
      response.Report? && response.filename == upload.name &&
      response.result == AnalysisOf(Worker, upload.content)
    ensures response.Report? ==>
      ConstraintsFor(response.constraints, response.result, wordLimit, maxReferences, number)
  {
    if upload.NoFile? {
      return Rejected(400, MissingFile);
    }
    if !EndsWith(upload.name, ".tex") {
      return Rejected(400, OnlyTex);
    }
    var result := Analyze(Worker, upload.content);
    var constraints := AttachConstraints(result, wordLimit, maxReferences, number);
    response := Report(upload.name, result, constraints);
  }

  /** `mp.filename || 'uploaded.tex'` */
  function ServerFilename(name: string): (f: string)
    ensures name != "" ==> f == name
    ensures EndsWith(f, ".tex") <==> name == "" || EndsWith(name, ".tex")
  {
    if name == "" then "uploaded.tex" else name
  }

  /** The server's `/api/analyze` handler. */
  method ServerAnalyze(upload: Upload, wordLimit: Option<string>, maxReferences: Option<string>,
                       number: string -> Option<real>)
    returns (response: Response)
    ensures upload.NoFile? ==> response == Rejected(400, MissingFile)
    ensures upload.File? && !EndsWith(ServerFilename(upload.name), ".tex") ==> response == Rejected(400, OnlyTex)
    ensures upload.File? && EndsWith(ServerFilename(upload.name), ".tex") ==>
      response.Report? && response.filename == ServerFilename(upload.name) &&
      response.result == AnalysisOf(Server, upload.content)
    ensures response.Report? ==>
      ConstraintsFor(response.constraints, response.result, wordLimit, maxReferences, number)
  {
    if upload.NoFile? {
      return Rejected(400, MissingFile);
    }
    var filename := ServerFilename(upload.name);
    if !EndsWith(filename, ".tex") {
      return Rejected(400, OnlyTex);
    }
    var result := Analyze(Server, upload.content);
    var constraints := AttachConstraints(result, wordLimit, maxReferences, number);
    response := Report(filename, result, constraints);
  }
}
