/** What is kept of a provider response (collection/http_records.py): its metadata as a record, and
    its bytes elsewhere under their hash. Time stamps are integers, and JSON conversions are not
    modelled. */
module HttpRecords {
  import opened Prelude

  datatype Response = Response(body: string, requestedUrl: string, finalUrl: string, redirectChain: seq<string>,
                               statusCode: int, retrievedAt: int, contentType: Option<string>,
                               contentEncoding: Option<string>, etag: Option<string>, lastModified: Option<string>,
                               bodyLength: int, sha: string, representation: string, headers: seq<(string, string)>)

  datatype Record = Record(requestedUrl: string, finalUrl: string, redirectChain: seq<string>, statusCode: int,
                           retrievedAt: int, contentType: Option<string>, contentEncoding: Option<string>,
                           etag: Option<string>, lastModified: Option<string>, bodyLength: int, bodySha: string,
                           representation: string, headers: seq<(string, string)>)

  function ToRecord(r: Response): Record {
    Record(r.requestedUrl, r.finalUrl, r.redirectChain, r.statusCode, r.retrievedAt, r.contentType,
           r.contentEncoding, r.etag, r.lastModified, r.bodyLength, r.sha, r.representation, r.headers)
  }

  /** Rebuilds a response around a stored body and refuses a body that does not match. */
  function FromRecord(hash: string -> string, rec: Record, body: string): Result<Response> {
    if hash(body) != rec.bodySha || |body| != rec.bodyLength then Failure("body does not match")
    else Success(Response(body, rec.requestedUrl, rec.finalUrl, rec.redirectChain, rec.statusCode, rec.retrievedAt,
                          rec.contentType, rec.contentEncoding, rec.etag, rec.lastModified, |body|, hash(body),
                          rec.representation, rec.headers))
  }

  /** The response's own length and hash describe its body. */
  predicate Consistent(hash: string -> string, r: Response) {
    r.sha == hash(r.body) && r.bodyLength == |r.body|
  }

  /** Record and rebuild undo each other, exactly for the responses that describe their own body. */
  lemma RecordRoundTrip(hash: string -> string, r: Response)
    ensures FromRecord(hash, ToRecord(r), r.body) == Success(r) <==> Consistent(hash, r)
    ensures !Consistent(hash, r) ==> FromRecord(hash, ToRecord(r), r.body).Failure?
  {}

  /** A record keeps everything but the body under its own name. */
  lemma RecordSays(r: Response)
    ensures
      var rec := ToRecord(r);
      && rec.requestedUrl == r.requestedUrl && rec.finalUrl == r.finalUrl && rec.redirectChain == r.redirectChain
      && rec.statusCode == r.statusCode && rec.retrievedAt == r.retrievedAt && rec.contentType == r.contentType
      && rec.contentEncoding == r.contentEncoding && rec.etag == r.etag && rec.lastModified == r.lastModified
      && rec.bodyLength == r.bodyLength && rec.bodySha == r.sha && rec.representation == r.representation
      && rec.headers == r.headers
  {}

  /** Whatever rebuilds from a record has that record, and is consistent. */
  lemma RebuildRoundTrip(hash: string -> string, rec: Record, body: string)
    requires FromRecord(hash, rec, body).Success?
    ensures ToRecord(FromRecord(hash, rec, body).value) == rec
    ensures Consistent(hash, FromRecord(hash, rec, body).value)
    ensures FromRecord(hash, rec, body).value.body == body
  {}
}
