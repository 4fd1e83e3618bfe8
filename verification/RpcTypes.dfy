/** JSON-RPC requests and responses as values (proxyd/rpc.go; JSON-RPC 2.0). */
module RpcTypes {

  datatype Req = Req(id: string, methodName: string, params: string)

  datatype Payload = Result(value: string) | Null | Failure(code: int)

  datatype Res = Res(id: string, payload: Payload)

  datatype Option<+T> = None | Some(value: T)

  /** Which payloads answer a request; what answers it does not depend on its id. */
  type Truth = (string, string, Payload) -> bool

  predicate Answers(truth: Truth, req: Req, payload: Payload) {
    truth(req.methodName, req.params, payload)
  }

  predicate DistinctIds(reqs: seq<Req>) {
    forall i, j | 0 <= i < j < |reqs| :: reqs[i].id != reqs[j].id
  }

  function Ids(reqs: seq<Req>): (ids: seq<string>)
    ensures |ids| == |reqs| && forall i | 0 <= i < |reqs| :: ids[i] == reqs[i].id
  {
    seq(|reqs|, i requires 0 <= i < |reqs| => reqs[i].id)
  }

  function ResIds(res: seq<Res>): (ids: seq<string>)
    ensures |ids| == |res| && forall i | 0 <= i < |res| :: ids[i] == res[i].id
  {
    seq(|res|, i requires 0 <= i < |res| => res[i].id)
  }
}
