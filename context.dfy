/**
 * The parameter registry a ciphertext is bound to: `SEALContext` reduced to
 * the two things ciphertext.cpp asks of it, whether its encryption
 * parameters are set, and the context data stored for each `parms_id`.
 */
module Context {
  import opened Common

  /** `parms_id_type` is a SHA-3 block of four 64-bit words. */
  const PARMS_ID_WORDS: nat := 4

  type ParmsId = s: seq<U64> | |s| == PARMS_ID_WORDS witness [0, 0, 0, 0]

  /** The moduli of one parameter set; `coeff_modulus().size()` is a `size_t`. */
  type Moduli = s: seq<U64> | |s| < WORD_BOUND

  /**
   * What `context_data(parms_id)->parms()` exposes: the parameter set's own
   * id, its polynomial modulus degree and its coefficient moduli, in slot order.
   */
  datatype ContextData = ContextData(parmsId: ParmsId, polyModulusDegree: U64, coeffModulus: Moduli)

  datatype SealContext = SealContext(parametersSet: bool, contextData: map<ParmsId, ContextData>) {
    /** Every context data is registered under its own parameter set's id, as the library keys them. */
    predicate IdsConsistent() {
      forall id | id in contextData :: contextData[id].parmsId == id
    }
  }

  /**
   * The checks that open `reserve` and `resize`: a null context, a context
   * whose parameters are not set, and an unknown `parms_id` each fail, in that
   * order; otherwise the context data registered for `parmsId`.
   * `None` stands for a null `shared_ptr<SEALContext>`.
   */
  function Lookup(context: Option<SealContext>, parmsId: ParmsId): (r: Result<ContextData>)
    ensures r.Ok? <==> context.Some? && context.value.parametersSet && parmsId in context.value.contextData
    ensures r.Ok? ==> r.value == context.value.contextData[parmsId]
    ensures context.None? ==> r == Err(InvalidContext)
    ensures context.Some? && !context.value.parametersSet ==> r == Err(ParametersNotSet)
    ensures context.Some? && context.value.parametersSet && parmsId !in context.value.contextData
            ==> r == Err(InvalidParmsId)
  {
    match context
    case None => Err(InvalidContext)
    case Some(ctx) =>
      if !ctx.parametersSet then Err(ParametersNotSet)
      else if parmsId !in ctx.contextData then Err(InvalidParmsId)
      else Ok(ctx.contextData[parmsId])
  }
}
