/** The backend's choice of a code converter for an encoding name
    (`create_codecvt`) and the factory for the adapter converter
    (`create_iconv_converter`).

    Three tiers are tried in order: the UTF-8 converter for names that
    normalize to "utf8"; the simple single-byte codec; and, only when the
    simple codec rejects the name as an invalid charset, the adapter
    converter. The name normalization and the first two tiers are outside
    this model and enter it as the parameters bundled in `Tiers`.
 */
module Codecvt {
  import opened Types
  import opened Iconv
  import opened Mb2Converter

  /** How `create_simple_codecvt` ends for a name: it builds a codec, throws
      `invalid_charset_error`, or throws anything else. */
  datatype SimpleOutcome = SimpleBuilt | InvalidCharset | OtherFailure

  /** The collaborators of the selection policy: name normalization
      (`normalize_encoding`) and the simple-codec tier. */
  datatype Tiers = Tiers(normalize: string -> string, simple: string -> SimpleOutcome)

  /** What `create_codecvt` ends with: the UTF-8 codec, the simple codec, the
      codec wrapped around an adapter converter (`create_codecvt_from_pointer`,
      with `None` for the null pointer), or an exception other than
      `invalid_charset_error` leaving the simple tier. */
  datatype Codecvt = Utf8Codecvt | SimpleCodecvt | PointerCodecvt(cvt: Option<Converter>) | Propagated

  /** `create_iconv_converter`: the adapter converter, or the null pointer
      when its constructor throws; the exception never leaves. */
  function CreateIconvConverter(svc: Service, e: string): (r: Option<Converter>)
    ensures r.Some? <==> svc.canDecode(e)
    ensures r.Some? ==> Reachable(svc, r.value) && r.value.encoding == e
    ensures r.Some? ==> r.value.toUtf == Closed && r.value.fromUtf == Closed
  {
    match NewConverter(svc, e)
    case Success(cv) => Some(cv)
    case Failure(_) => None
  }

  /** `create_codecvt`: the three-tier selection. */
  function CreateCodecvt(tiers: Tiers, svc: Service, e: string): (r: Codecvt)
    ensures r == Utf8Codecvt <==> tiers.normalize(e) == "utf8"
    ensures r == SimpleCodecvt <==> tiers.normalize(e) != "utf8" && tiers.simple(e) == SimpleBuilt
    ensures r == Propagated <==> tiers.normalize(e) != "utf8" && tiers.simple(e) == OtherFailure
    ensures r.PointerCodecvt? <==> tiers.normalize(e) != "utf8" && tiers.simple(e) == InvalidCharset
    ensures r.PointerCodecvt? ==> (r.cvt.Some? <==> svc.canDecode(e))
    ensures r.PointerCodecvt? && r.cvt.Some? ==> Reachable(svc, r.cvt.value) && r.cvt.value.encoding == e
  {
    if tiers.normalize(e) == "utf8" then Utf8Codecvt
    else
      match tiers.simple(e)
      case SimpleBuilt => SimpleCodecvt
      case OtherFailure => Propagated
      case InvalidCharset => PointerCodecvt(CreateIconvConverter(svc, e))
  }

  /** The transcoding service is consulted only as the last resort: unless
      the simple codec rejects the name as an invalid charset, the choice is
      the same whatever the service can do. */
  lemma ServiceOnlyAsLastResort(tiers: Tiers, svc1: Service, svc2: Service, e: string)
    requires tiers.normalize(e) == "utf8" || tiers.simple(e) != InvalidCharset
    ensures CreateCodecvt(tiers, svc1, e) == CreateCodecvt(tiers, svc2, e)
    ensures !CreateCodecvt(tiers, svc1, e).PointerCodecvt?
  {
  }
}
