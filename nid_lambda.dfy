/** The serverless variant of `/detect-text`: a handler that runs the same
    forward pass over the OCR lines and wraps the result in a 200 response. */
module NidLambda {
  import opened Text
  import opened NidExtraction

  datatype LambdaResponse = LambdaResponse(statusCode: nat, body: NidResponse)

  /** The handler's extraction: the scan, success when any block was found, and
      the result as the body of a 200 response. */
  method Handler(lines: seq<string>) returns (resp: LambdaResponse)
    ensures resp.statusCode == 200
    ensures resp.body == Expected(lines)
  {
    var name, dob, nid, nameBlock, dobBlock, nidBlock := ScanLines(lines);
    var success := false;
    if nameBlock.Some? || dobBlock.Some? || nidBlock.Some? {
      success := true;
    }
    resp := LambdaResponse(200, NidResponse(if success then Success else Fail, NidData(dob, name, nid)));
  }

  /** The handler and the server endpoint agree on every list of lines. */
  method HandlerMatchesServer(lines: seq<string>) returns (handlerBody: NidResponse, serverBody: NidResponse)
    ensures handlerBody == serverBody
  {
    var fromHandler := Handler(lines);
    handlerBody := fromHandler.body;
    serverBody := DetectText(lines);
  }
}
