/** Shaping of a schema validation failure into the generic error response
    (`handleValidationError`). */
module ValidationErrors {

  /** One entry of a validation failure's `errors` dictionary: either a failed
      validator or a failed cast, each naming the offending path. */
  datatype FieldError =
    | ValidatorError(path: string, message: string)
    | CastError(path: string, message: string)

  /** One element of the response's `errorDocs`. */
  datatype ErrorDoc = ErrorDoc(path: string, message: string)

  /** The generic error response the error handler renders. */
  datatype GenericErrorResponse =
    GenericErrorResponse(statusCode: int, message: string, errorDocs: seq<ErrorDoc>)

  const ValidationStatusCode: int := 400
  const ValidationMessage: string := "Validation Error"

  /** The error document describing one field error. */
  function DocOf(e: FieldError): (d: ErrorDoc)
    ensures d.path == e.path && d.message == e.message
  {
    ErrorDoc(e.path, e.message)
  }

  /** The `map` over the field errors, taken in the dictionary's insertion order. */
  function ErrorDocsOf(errors: seq<FieldError>): (docs: seq<ErrorDoc>)
    ensures |docs| == |errors|
    ensures forall i :: 0 <= i < |errors| ==>
              docs[i].path == errors[i].path && docs[i].message == errors[i].message
  {
    if errors == [] then [] else [DocOf(errors[0])] + ErrorDocsOf(errors[1..])
  }

  /** A validation failure becomes a 400 response whose `errorDocs` list one
      `{path, message}` per field error, in order. */
  function HandleValidationError(errors: seq<FieldError>): (r: GenericErrorResponse)
    ensures r.statusCode == 400
    ensures r.message == "Validation Error"
    ensures |r.errorDocs| == |errors|
    ensures forall i :: 0 <= i < |errors| ==>
              r.errorDocs[i] == ErrorDoc(errors[i].path, errors[i].message)
  {
    GenericErrorResponse(ValidationStatusCode, ValidationMessage, ErrorDocsOf(errors))
  }

  /** The paths of a sequence of field errors, in order. */
  function PathsOf(errors: seq<FieldError>): seq<string>
  {
    if errors == [] then [] else [errors[0].path] + PathsOf(errors[1..])
  }

  /** The paths of a sequence of error documents, in order. */
  function DocPathsOf(docs: seq<ErrorDoc>): seq<string>
  {
    if docs == [] then [] else [docs[0].path] + DocPathsOf(docs[1..])
  }

  /** The response names exactly the failing paths, in the same order: no path
      is dropped, duplicated or reordered. */
  lemma {:induction false} HandleValidationErrorKeepsPaths(errors: seq<FieldError>)
    ensures DocPathsOf(HandleValidationError(errors).errorDocs) == PathsOf(errors)
  {
    if errors != [] {
      HandleValidationErrorKeepsPaths(errors[1..]);
      assert ErrorDocsOf(errors)[1..] == ErrorDocsOf(errors[1..]);
    }
  }

  /** Shaping is compositional: the documents for two groups of field errors
      are the documents of each group, concatenated. */
  lemma HandleValidationErrorAppend(a: seq<FieldError>, b: seq<FieldError>)
    ensures HandleValidationError(a + b).errorDocs
         == HandleValidationError(a).errorDocs + HandleValidationError(b).errorDocs
  {
    var l, r := HandleValidationError(a + b).errorDocs,
                HandleValidationError(a).errorDocs + HandleValidationError(b).errorDocs;
    assert |l| == |r|;
    forall i | 0 <= i < |l| ensures l[i] == r[i] {
      if i < |a| {
        assert (a + b)[i] == a[i];
      } else {
        assert (a + b)[i] == b[i - |a|];
      }
    }
  }
}
