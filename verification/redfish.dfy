/** The remote Redfish resource tree as the crawler sees it: a pure function
    from a request path to a status and a parsed document. */
module Redfish {

  /** A parsed Redfish document, reduced to what the crawler reads from it:
      the names of its top-level entries, `Members@odata.count`, the
      `@odata.id` of each `Members` entry, `Storage.@odata.id`, the
      `@odata.id` of each `Drives` entry, and everything else as `attrs`.
      Because these fields always exist, the `KeyError`s a document lacking
      them would raise are outside the model. */
  datatype Body = Body(
    names: set<string>,
    memberCount: int,
    members: seq<string>,
    storage: string,
    drives: seq<string>,
    attrs: map<string, string>)

  /** The `{}` that `get` hands back for a failed read. */
  const EmptyBody := Body({}, 0, [], "", [], map[])

  datatype Response = Response(status: int, body: Body)

  /** The remote client: every path has a response. */
  type Remote = string -> Response

  predicate Ok(remote: Remote, path: string) {
    remote(path).status == 200
  }

  /** `EssdDrive.get`: the status, and the body only when the status is 200
      (the JSON dump/load round trip leaves a document unchanged). */
  function Get(remote: Remote, path: string): (r: Response)
    ensures r.status == remote(path).status
    ensures r.status == 200 ==> r.body == remote(path).body
    ensures r.status != 200 ==> r.body == EmptyBody
  {
    var resp := remote(path);
    if resp.status != 200 then Response(resp.status, EmptyBody) else resp
  }
}
