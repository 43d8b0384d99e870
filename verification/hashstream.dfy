/**
 * `hashstream`: option validation and the per-record transform.  Stream
 * mechanics are left to the pipeline; one record in gives one record out,
 * together with the arguments the callback was called with.
 */
module Hashstream {
  import opened Wrappers
  import opened Html
  import opened CspHash
  import opened Collector
  import opened Records

  /**
   * The user callback `callback(path, hashes[, content])`.  The content
   * argument is passed (as `Some`) only in replace mode, where the returned
   * string becomes the new contents; otherwise the result is ignored.
   */
  type Callback = (string, Hashes, Option<string>) -> string

  /** What was passed as `callback`: nothing, something that is not a function, or a function. */
  datatype CallbackOption = Missing | NotAFunction | Function(f: Callback)

  /**
   * Whatever was passed as `replace`.  Only its truthiness matters, so a
   * number is kept as a real (with NaN apart) and every object is alike.
   */
  datatype JsValue = Undefined | Null | Boolean(b: bool) | Number(x: real) | NaN | Str(s: string) | Object

  /** JavaScript's `ToBoolean`: `undefined`, `null`, `false`, `0`, `NaN` and `''` are falsy. */
  predicate Truthy(v: JsValue) {
    match v
    case Undefined => false
    case Null => false
    case Boolean(b) => b
    case Number(x) => x != 0.0
    case NaN => false
    case Str(s) => |s| > 0
    case Object => true
  }

  /**
   * The options object.  An `algo` of `None` was left `undefined` and takes
   * its default; a `replace` left `Undefined` defaults to `false`.
   */
  datatype Options = Options(algo: Option<string>, replace: JsValue, callback: CallbackOption)

  /** `hashstream()` and `hashstream({})`. */
  const NoOptions: Options := Options(None, Undefined, Missing)

  /** The validated configuration a stream is built with. */
  datatype Config = Config(algo: Algo, replace: bool, callback: Callback)

  datatype ConfigError = BadAlgo | BadCallback

  predicate AlgoAccepted(opts: Options) {
    opts.algo.None? || opts.algo.value in {"sha256", "sha384", "sha512"}
  }

  /**
   * Builds the stage, or throws before any record is seen: the algorithm is
   * checked first, then the callback.
   */
  function MakeHashstream(opts: Options): (r: Result<Config, ConfigError>)
    ensures r.Success? <==> AlgoAccepted(opts) && opts.callback.Function?
    ensures r.Failure? ==> (r.error == BadAlgo <==> !AlgoAccepted(opts))
    ensures r.Success? ==> AlgoName(r.value.algo) == opts.algo.GetOr("sha256")
    ensures r.Success? ==> (r.value.replace <==> Truthy(opts.replace))
    ensures r.Success? ==> forall p, hs, c :: r.value.callback(p, hs, c) == opts.callback.f(p, hs, c)
  {
    var name := opts.algo.GetOr("sha256");
    match ParseAlgo(name)
    case None => Failure(BadAlgo)
    case Some(a) =>
      ParseAlgoExact(name, Sha256);
      ParseAlgoExact(name, Sha384);
      ParseAlgoExact(name, Sha512);
      if !opts.callback.Function? then Failure(BadCallback)
      else Success(Config(a, if opts.replace == Undefined then false else Truthy(opts.replace), opts.callback.f))
  }

  /** Without options there is no callback, so construction fails. */
  lemma NoOptionsRejected()
    ensures MakeHashstream(NoOptions) == Failure(BadCallback)
  {
  }

  /**
   * `if (replace)` tests truthiness, not `=== true`: `1`, `'yes'` and `{}`
   * turn replace mode on; `null`, `0`, `NaN` and `''` leave it off, as does
   * the default.
   */
  lemma ReplaceIsTruthiness(cb: Callback)
    ensures forall v: JsValue :: v in {Number(1.0), Str("yes"), Object, Boolean(true)} ==>
      var r := MakeHashstream(Options(None, v, Function(cb))); r.Success? && r.value.replace
    ensures forall v: JsValue :: v in {Undefined, Null, Number(0.0), NaN, Str(""), Boolean(false)} ==>
      var r := MakeHashstream(Options(None, v, Function(cb))); r.Success? && !r.value.replace
  {
  }

  /** The formatter bound to an algorithm, `makeCspHash.bind(null, algo)`. */
  function TokenFn(algo: Algo, digest: Digest): string -> string {
    x => MakeCspHash(algo, x, digest)
  }

  /** The arguments of the one callback invocation a record causes. */
  datatype Call = Call(path: string, hashes: Hashes, content: Option<string>)

  datatype Step = Step(out: Vinyl, call: Call)

  /**
   * One record through the stage: parse, collect, call back, and replace the
   * contents by the callback's result in replace mode only.
   */
  function ProcessRecord(cfg: Config, parse: string -> Document, digest: Digest, v: Vinyl): (r: Step)
    requires v.contents.Some?
    ensures r.out.path == v.path && r.call.path == v.path
    ensures r.call.hashes == CollectHashes(parse(v.contents.value), TokenFn(cfg.algo, digest))
    ensures r.call.content.Some? <==> cfg.replace
    ensures !cfg.replace ==> r.out == v
    ensures cfg.replace ==> r.call.content == v.contents
    ensures cfg.replace ==> r.out.contents == Some(cfg.callback(v.path, r.call.hashes, v.contents))
  {
    var hashes := CollectHashes(parse(v.contents.value), TokenFn(cfg.algo, digest));
    if cfg.replace then
      Step(v.(contents := Some(cfg.callback(v.path, hashes, v.contents))), Call(v.path, hashes, v.contents))
    else
      Step(v, Call(v.path, hashes, None))
  }

  /** The callback hands back the content it was given. */
  ghost predicate ReturnsContent(cb: Callback) {
    forall p, hs, c :: cb(p, hs, Some(c)) == c
  }

  /** In replace mode, a callback that returns its content argument leaves the record as it was. */
  lemma ReplaceWithSameContent(cfg: Config, parse: string -> Document, digest: Digest, v: Vinyl)
    requires v.contents.Some? && cfg.replace && ReturnsContent(cfg.callback)
    ensures ProcessRecord(cfg, parse, digest, v).out == v
  {
  }

  /** Every collected token is `h(x)` for some text `x`. */
  lemma CollectedAreHashes(doc: Document, h: string -> string, t: string)
    requires var hs := CollectHashes(doc, h); t in hs.script.All() || t in hs.style.All()
    ensures exists x :: t == h(x)
  {
    var hs := CollectHashes(doc, h);
    if t in hs.script.elements {
      var k :| 0 <= k < |hs.script.elements| && hs.script.elements[k] == t;
    } else if t in hs.script.attributes {
      var i, a :| 0 <= i < |doc| && a in doc[i].attrs && Contributes(a, t, h);
    } else if t in hs.style.elements {
      var k :| 0 <= k < |hs.style.elements| && hs.style.elements[k] == t;
    } else {
      assert t in hs.style.attributes;
      var k :| 0 <= k < |hs.style.attributes| && hs.style.attributes[k] == t;
    }
  }

  /** Every token the callback receives is a well-formed token of the configured algorithm. */
  lemma TokensUseConfiguredAlgo(cfg: Config, parse: string -> Document, digest: Digest, v: Vinyl, t: string)
    requires v.contents.Some?
    requires var hs := ProcessRecord(cfg, parse, digest, v).call.hashes; t in hs.script.All() || t in hs.style.All()
    ensures ParseToken(t).Some? && ParseToken(t).value.0 == cfg.algo
  {
    CollectedAreHashes(parse(v.contents.value), TokenFn(cfg.algo, digest), t);
    var x :| t == TokenFn(cfg.algo, digest)(x);
    TokenRoundTrip(cfg.algo, x, digest);
  }

  /** Each record is processed on its own: the stage keeps no state between records. */
  function ProcessAll(cfg: Config, parse: string -> Document, digest: Digest, records: seq<Vinyl>): (r: seq<Step>)
    requires forall i :: 0 <= i < |records| ==> records[i].contents.Some?
    ensures |r| == |records|
    ensures forall i :: 0 <= i < |records| ==> r[i] == ProcessRecord(cfg, parse, digest, records[i])
    decreases |records|
  {
    if |records| == 0 then []
    else [ProcessRecord(cfg, parse, digest, records[0])] + ProcessAll(cfg, parse, digest, records[1..])
  }

  /**
   * Building the stage and writing records through it.  An invalid option
   * fails before any record is processed, so no callback is ever made.
   */
  function Run(opts: Options, parse: string -> Document, digest: Digest, records: seq<Vinyl>): (r: Result<seq<Step>, ConfigError>)
    requires forall i :: 0 <= i < |records| ==> records[i].contents.Some?
    ensures MakeHashstream(opts).Failure? ==> r == Failure(MakeHashstream(opts).error)
    ensures MakeHashstream(opts).Success? ==> r.Success? && |r.value| == |records|
    ensures MakeHashstream(opts).Success? ==>
              forall i :: 0 <= i < |records| ==> r.value[i] == ProcessRecord(MakeHashstream(opts).value, parse, digest, records[i])
  {
    match MakeHashstream(opts)
    case Failure(e) => Failure(e)
    case Success(cfg) => Success(ProcessAll(cfg, parse, digest, records))
  }
}
