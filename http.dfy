/** The HTTP layer seen by the ETL programs, replaced by a finite script of
    responses: the k-th request of a run receives the k-th response of the
    script, whatever URL it names, and a request past the end of the script
    fails as a connection error would. A response carries its status code,
    its text, whatever the program parses out of that text (`payload`) and
    its optional `Link` header. */
module Http {
  import opened Wrappers

  datatype Response<P> =
    | Response(status: int, body: string, payload: P, link: Option<string>)
    | ConnectionFailed

  /** `requests.Response.raise_for_status()` raises for a client or server error status. */
  predicate RaisesForStatus(status: int) {
    400 <= status < 600
  }

  /** The request returned a response and `raise_for_status()` let it through. */
  predicate Succeeded<P>(r: Response<P>) {
    r.Response? && !RaisesForStatus(r.status)
  }

  /** The response to the k-th request of a run. */
  function Fetch<P>(script: seq<Response<P>>, k: nat): (r: Response<P>)
    ensures k < |script| ==> r == script[k]
    ensures k >= |script| ==> r.ConnectionFailed?
  {
    if k < |script| then script[k] else ConnectionFailed
  }

  /** `response.text`, empty for a request that got no response. */
  function BodyOf<P>(r: Response<P>): string {
    if r.Response? then r.body else ""
  }

  /** The texts of a sequence of responses. */
  function Bodies<P>(rs: seq<Response<P>>): (bs: seq<string>)
    ensures |bs| == |rs|
    ensures forall i :: 0 <= i < |rs| ==> bs[i] == BodyOf(rs[i])
  {
    seq(|rs|, i requires 0 <= i < |rs| => BodyOf(rs[i]))
  }

  /** `response.headers.get('Link')`. */
  function LinkOf<P>(r: Response<P>): Option<string> {
    if r.Response? then r.link else None
  }
}
