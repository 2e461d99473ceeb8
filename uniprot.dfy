/** `search_uniprot_safe` (app.py:42-61): the query it builds, and how it turns
    whatever the HTTP request produced into a record or into "no result". */
module Uniprot {
  import opened Wrappers

  /** Where a sequence record came from: the tags 'UniProt', 'GPT-4' and
      'Failed' of the program. */
  datatype Source = UniProt | Gpt4 | Failed

  /** One entry of the program's `results` list. */
  datatype SequenceRecord = SequenceRecord(name: string, sequence: string, source: Source)

  /** One element of the `results` array of the JSON reply. `None` stands for
      a missing `['proteinName']['value']` or `['sequence']['value']` path,
      which makes the program raise `KeyError`. */
  datatype Hit = Hit(proteinName: Option<string>, sequence: Option<string>)

  /** What `response.json()` produced: not JSON at all, or an object whose
      `results` key (`None` when missing) holds the array of hits. */
  datatype Body = NotJson | Json(results: Option<seq<Hit>>)

  /** What `requests.get(url, timeout=10)` produced: it raised (connection
      error, timeout, ...), or a response came back with a status code and a
      body. */
  datatype HttpOutcome = TransportError(msg: string) | Response(status: int, body: Body)

  const QueryStart := "gene_exact:\""
  const QueryEnd := "\" AND organism_id:9606 AND reviewed:true"
  const Endpoint := "https://rest.uniprot.org/uniprotkb/search?query="
  const UrlEnd := "&format=json&fields=accession,protein_name,sequence&size=1"

  /** The search text: an exact gene-name match, human entries only
      (taxonomy id 9606), reviewed entries only. */
  function GeneQuery(name: string): string {
    QueryStart + name + QueryEnd
  }

  /** The request URL; `quote` is `urllib.parse.quote_plus`, which is not
      part of this model. */
  function SearchUrl(name: string, quote: string -> string): string {
    Endpoint + quote(GeneQuery(name)) + UrlEnd
  }

  /** The middle of `s` once `start` and `end` are cut off, if `s` has them. */
  function Between(s: string, start: string, end: string): (r: Option<string>)
    ensures r.Some? ==> s == start + r.value + end
  {
    if |start| + |end| <= |s| && s[..|start|] == start && s[|s| - |end|..] == end then
      var m := s[|start|..|s| - |end|];
      assert s == s[..|start|] + m + s[|s| - |end|..];
      Some(m)
    else None
  }

  lemma BetweenOf(start: string, m: string, end: string)
    ensures Between(start + m + end, start, end) == Some(m)
  {
    var s := start + m + end;
    assert s[..|start|] == start && s[|s| - |end|..] == end && s[|start|..|s| - |end|] == m;
  }

  /** The queried gene name can be read back from the search text, so distinct
      names give distinct queries. */
  lemma GeneQueryRoundTrip(name: string)
    ensures Between(GeneQuery(name), QueryStart, QueryEnd) == Some(name)
  {
    BetweenOf(QueryStart, name, QueryEnd);
  }

  /** The encoded query can be read back from the URL: the fixed endpoint and
      parameters (JSON format, accession/protein name/sequence fields, one
      result) surround it whatever it is. */
  lemma SearchUrlRoundTrip(name: string, quote: string -> string)
    ensures Between(SearchUrl(name, quote), Endpoint, UrlEnd) == Some(quote(GeneQuery(name)))
  {
    BetweenOf(Endpoint, quote(GeneQuery(name)), UrlEnd);
  }

  /** With an injective encoding (as `quote_plus` is), different names give
      different URLs. */
  lemma SearchUrlInjective(n1: string, n2: string, quote: string -> string)
    requires quote(GeneQuery(n1)) == quote(GeneQuery(n2)) ==> GeneQuery(n1) == GeneQuery(n2)
    requires n1 != n2
    ensures SearchUrl(n1, quote) != SearchUrl(n2, quote)
  {
    SearchUrlRoundTrip(n1, quote);
    SearchUrlRoundTrip(n2, quote);
    GeneQueryRoundTrip(n1);
    GeneQueryRoundTrip(n2);
  }

  /** `response.raise_for_status()` raises for client and server errors only. */
  predicate IsErrorStatus(status: int) {
    400 <= status < 600
  }

  /** `search_uniprot_safe` given what its request produced. Every failure
      (transport error, error status, a body that is not JSON, a missing key,
      an empty `results`) is caught and becomes `None`; otherwise the first hit
      becomes a record carrying the protein name the database reports. */
  function SearchUniprotSafe(response: HttpOutcome): (r: Option<SequenceRecord>)
    ensures r.Some? <==>
      && response.Response?
      && !IsErrorStatus(response.status)
      && response.body.Json?
      && response.body.results.Some?
      && |response.body.results.value| > 0
      && response.body.results.value[0].proteinName.Some?
      && response.body.results.value[0].sequence.Some?
    ensures r.Some? ==>
      var hit := response.body.results.value[0];
      r.value == SequenceRecord(hit.proteinName.value, hit.sequence.value, UniProt)
  {
    match response
    case TransportError(_) => None
    case Response(status, body) =>
      if IsErrorStatus(status) then None
      else match body
        case NotJson => None
        case Json(None) => None
        case Json(Some(hits)) =>
          if hits == [] then None
          else match hits[0]
            case Hit(Some(name), Some(sequence)) => Some(SequenceRecord(name, sequence, UniProt))
            case _ => None
  }

  /** Only the first hit is looked at (the request asks for one). */
  lemma OnlyFirstHitMatters(status: int, hit: Hit, more: seq<Hit>)
    ensures SearchUniprotSafe(Response(status, Json(Some([hit] + more))))
         == SearchUniprotSafe(Response(status, Json(Some([hit]))))
  {
  }

  /** An error status hides whatever body came with it. */
  lemma ErrorStatusIsMiss(status: int, body: Body)
    requires IsErrorStatus(status)
    ensures SearchUniprotSafe(Response(status, body)) == None
  {
  }
}
