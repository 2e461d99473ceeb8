/** The per-name provider chain of `get_amino_acid_sequences`
    (app.py:63-102): normalise every entry first, then for each name try the
    database, fall back to the language model, and turn a failing fallback
    into a 'Failed' record, one record per name, in order. */
module SequenceChain {
  import opened Wrappers
  import opened PyStr
  import opened TargetNames
  import opened Uniprot

  /** The post-processing of the fallback's reply: strip it, keep what follows
      the first line break (the header line of the requested two-line
      template), or all of it when there is no line break, and delete the
      space characters. Tabs and further line breaks are kept. */
  function ProcessFasta(reply: string): (r: string)
    ensures ' ' !in r
  {
    RemoveSpaces(AfterFirstNewline(Strip(reply, IsSpace)))
  }

  /** A reply in the requested template, a header line and then the residues,
      yields exactly the residues. */
  lemma ProcessFastaTemplate(header: string, residues: string)
    requires header != [] && !IsSpace(header[0]) && '\n' !in header
    requires residues != [] && !IsSpace(residues[|residues| - 1]) && ' ' !in residues
    ensures ProcessFasta(header + "\n" + residues) == residues
  {
    var reply := header + "\n" + residues;
    StripKeeps(reply, IsSpace);
    AfterFirstNewlineOf(header, residues);
  }

  /** A reply without a line break keeps all its text, only stripped and
      without spaces. */
  lemma ProcessFastaSingleLine(reply: string)
    requires '\n' !in Strip(reply, IsSpace)
    ensures ProcessFasta(reply) == RemoveSpaces(Strip(reply, IsSpace))
  {
  }

  /** A reply with a line break loses its first line (and the break), keeps
      every later line, and loses its spaces. */
  lemma ProcessFastaDropsFirstLine(reply: string, header: string, rest: string)
    requires Strip(reply, IsSpace) == header + "\n" + rest && '\n' !in header
    ensures ProcessFasta(reply) == RemoveSpaces(rest)
  {
    AfterFirstNewlineOf(header, rest);
  }

  /** What happens to one name: the database record if the lookup finds one,
      otherwise a record of the fallback's processed reply, otherwise a
      'Failed' record holding the error text. */
  function ResolveName(name: string, response: HttpOutcome, reply: Attempt<string>): (rec: SequenceRecord)
    ensures (rec.source == UniProt) <==> SearchUniprotSafe(response).Some?
    ensures rec.source == UniProt ==> rec == SearchUniprotSafe(response).value
    ensures rec.source != UniProt ==> rec.name == name
    ensures (rec.source == Gpt4) <==> SearchUniprotSafe(response).None? && reply.Returned?
    ensures rec.source == Gpt4 ==> rec.sequence == ProcessFasta(reply.value) && ' ' !in rec.sequence
    ensures (rec.source == Failed) <==> SearchUniprotSafe(response).None? && reply.Raised?
    ensures rec.source == Failed ==> rec.sequence == ErrorText(reply.msg) && rec.sequence[..7] == "Error: "
  {
    match SearchUniprotSafe(response)
    case Some(found) => found
    case None =>
      match reply
      case Returned(text) => SequenceRecord(name, ProcessFasta(text), Gpt4)
      case Raised(msg) => SequenceRecord(name, ErrorText(msg), Failed)
  }

  /** The fallback is only consulted when the lookup finds nothing: with a hit,
      the fallback's reply, whatever it is, makes no difference. */
  lemma FallbackOnlyOnMiss(name: string, response: HttpOutcome, r1: Attempt<string>, r2: Attempt<string>)
    requires SearchUniprotSafe(response).Some?
    ensures ResolveName(name, response, r1) == ResolveName(name, response, r2)
  {
  }

  /** An outbound request: a database search with the given query text, or a
      sequence request to the language model for the given name. */
  datatype Request = DatabaseSearch(query: string) | SequencePrompt(name: string)

  /** The requests made for one name: always the search, then the prompt only
      when the search found nothing. */
  function RequestsFor(name: string, response: HttpOutcome): seq<Request> {
    [DatabaseSearch(GeneQuery(name))]
      + (if SearchUniprotSafe(response).None? then [SequencePrompt(name)] else [])
  }

  /** The database lookup for a response finds nothing. */
  predicate IsMiss(response: HttpOutcome) {
    SearchUniprotSafe(response).None?
  }

  /** The misses among `responses`, counted up to the last response and then
      the last one itself. */
  lemma MissesLast(responses: seq<HttpOutcome>)
    requires responses != []
    ensures var n := |responses| - 1;
      |set k | 0 <= k < |responses| && IsMiss(responses[k])|
        == |set k | 0 <= k < n && IsMiss(responses[..n][k])| + (if IsMiss(responses[n]) then 1 else 0)
  {
    var n := |responses| - 1;
    var before := set k | 0 <= k < n && IsMiss(responses[..n][k]);
    var all := set k | 0 <= k < |responses| && IsMiss(responses[k]);
    assert all == before + (if IsMiss(responses[n]) then {n} else {});
    assert n !in before;
  }

  /** How many lookups among `responses` find nothing: the number of
      positions whose response is a miss. */
  function Misses(responses: seq<HttpOutcome>): (n: nat)
    ensures n == |set k | 0 <= k < |responses| && IsMiss(responses[k])|
  {
    if responses == [] then 0
    else
      var n := |responses| - 1;
      MissesLast(responses);
      Misses(responses[..n]) + (if IsMiss(responses[n]) then 1 else 0)
  }

  /** The requests of a whole batch, name after name. */
  function BatchRequests(names: seq<string>, responses: seq<HttpOutcome>): (rs: seq<Request>)
    requires |responses| == |names|
  {
    if names == [] then []
    else
      var n := |names| - 1;
      BatchRequests(names[..n], responses[..n]) + RequestsFor(names[n], responses[n])
  }

  /** A batch makes one database request per name and one language-model
      request per name the database did not find. */
  lemma {:induction false} BatchRequestsCount(names: seq<string>, responses: seq<HttpOutcome>)
    requires |responses| == |names|
    ensures |BatchRequests(names, responses)| == |names| + Misses(responses)
  {
    if names != [] {
      var n := |names| - 1;
      BatchRequestsCount(names[..n], responses[..n]);
    }
  }

  /** The language model is asked about a name only after that occurrence's
      own database request missed: every prompt in a batch's requests directly
      follows the search for its name, and sits right after the requests of
      the names before it, so it belongs to the k-th name, whose response is a
      miss. */
  lemma {:induction false} PromptFollowsMiss(names: seq<string>, responses: seq<HttpOutcome>, j: nat)
    requires |responses| == |names|
    requires j < |BatchRequests(names, responses)| && BatchRequests(names, responses)[j].SequencePrompt?
    ensures 0 < j && BatchRequests(names, responses)[j - 1] == DatabaseSearch(GeneQuery(BatchRequests(names, responses)[j].name))
    ensures exists k :: && 0 <= k < |names|
                        && j == |BatchRequests(names[..k], responses[..k])| + 1
                        && names[k] == BatchRequests(names, responses)[j].name
                        && SearchUniprotSafe(responses[k]).None?
  {
    var n := |names| - 1;
    var before := BatchRequests(names[..n], responses[..n]);
    var all := BatchRequests(names, responses);
    if j < |before| {
      PromptFollowsMiss(names[..n], responses[..n], j);
      assert all[j] == before[j] && all[j - 1] == before[j - 1];
      var k :| && 0 <= k < n
               && j == |BatchRequests(names[..n][..k], responses[..n][..k])| + 1
               && names[..n][k] == before[j].name
               && SearchUniprotSafe(responses[..n][k]).None?;
      assert names[..n][..k] == names[..k] && responses[..n][..k] == responses[..k];
      assert names[k] == names[..n][k] && responses[k] == responses[..n][k];
    } else {
      assert all[j] == RequestsFor(names[n], responses[n])[j - |before|];
      assert SearchUniprotSafe(responses[n]).None? && j == |before| + 1;
    }
  }

  lemma BatchRequestsStep(names: seq<string>, responses: seq<HttpOutcome>, i: nat)
    requires |responses| == |names| && i < |names|
    ensures BatchRequests(names[..i + 1], responses[..i + 1])
         == BatchRequests(names[..i], responses[..i]) + RequestsFor(names[i], responses[i])
  {
    assert names[..i + 1][..i] == names[..i] && responses[..i + 1][..i] == responses[..i];
  }

  /** The records of a batch, one per name, each from that name's own lookup
      and reply: the value `get_amino_acid_sequences` builds in `results`. */
  function Resolved(names: seq<string>, responses: seq<HttpOutcome>, replies: seq<Attempt<string>>): (rs: seq<SequenceRecord>)
    requires |responses| == |names| && |replies| == |names|
    ensures |rs| == |names|
    ensures forall k :: 0 <= k < |names| ==> rs[k] == ResolveName(names[k], responses[k], replies[k])
  {
    if names == [] then []
    else
      var n := |names| - 1;
      var prefix := Resolved(names[..n], responses[..n], replies[..n]);
      assert forall k :: 0 <= k < n ==>
        names[..n][k] == names[k] && responses[..n][k] == responses[k] && replies[..n][k] == replies[k];
      prefix + [ResolveName(names[n], responses[n], replies[n])]
  }

  lemma ResolvedStep(names: seq<string>, responses: seq<HttpOutcome>, replies: seq<Attempt<string>>, i: nat)
    requires |responses| == |names| && |replies| == |names| && i < |names|
    ensures Resolved(names[..i + 1], responses[..i + 1], replies[..i + 1])
         == Resolved(names[..i], responses[..i], replies[..i]) + [ResolveName(names[i], responses[i], replies[i])]
  {
    assert names[..i + 1][..i] == names[..i] && responses[..i + 1][..i] == responses[..i];
    assert replies[..i + 1][..i] == replies[..i];
  }

  /** The loop of `get_amino_acid_sequences` (app.py:71-102) over the
      normalised names. `responses[i]` and `replies[i]` are what the database
      request and the language-model request for the i-th name produce. Each
      name gets exactly one record, in order, and a failing fallback costs
      only its own name a 'Failed' record. */
  method ResolveAll(names: seq<string>, responses: seq<HttpOutcome>, replies: seq<Attempt<string>>)
    returns (records: seq<SequenceRecord>, requests: seq<Request>)
    requires |responses| == |names| && |replies| == |names|
    ensures records == Resolved(names, responses, replies)
    ensures requests == BatchRequests(names, responses)
  {
    records, requests := [], [];
    for i := 0 to |names|
      invariant records == Resolved(names[..i], responses[..i], replies[..i])
      invariant requests == BatchRequests(names[..i], responses[..i])
    {
      BatchRequestsStep(names, responses, i);
      ResolvedStep(names, responses, replies, i);
      ghost var done := requests;
      var found := SearchUniprotSafe(responses[i]);
      requests := requests + [DatabaseSearch(GeneQuery(names[i]))];
      if found.Some? {
        assert found.value == ResolveName(names[i], responses[i], replies[i]);
        records := records + [found.value];
        assert RequestsFor(names[i], responses[i]) == [DatabaseSearch(GeneQuery(names[i]))];
        continue;
      }
      requests := requests + [SequencePrompt(names[i])];
      assert RequestsFor(names[i], responses[i]) == [DatabaseSearch(GeneQuery(names[i])), SequencePrompt(names[i])];
      assert requests == done + [DatabaseSearch(GeneQuery(names[i])), SequencePrompt(names[i])];
      match replies[i]
      case Returned(text) =>
        records := records + [SequenceRecord(names[i], ProcessFasta(text), Gpt4)];
      case Raised(msg) =>
        records := records + [SequenceRecord(names[i], ErrorText(msg), Failed)];
      assert records[i] == ResolveName(names[i], responses[i], replies[i]);
    }
    assert names[..|names|] == names && responses[..|names|] == responses && replies[..|names|] == replies;
  }

  /** `get_amino_acid_sequences` up to the list of records (the HTML built from
      it is not modelled). Every entry is normalised first, outside the
      per-name `try`, so one entry that cannot be normalised aborts the whole
      batch before any request is made; otherwise the names go through the
      loop. */
  method GetAminoAcidSequences(proteins: seq<TargetEntry>, responses: seq<HttpOutcome>, replies: seq<Attempt<string>>)
    returns (results: Result<seq<SequenceRecord>, NameError>, requests: seq<Request>)
    requires |responses| == |proteins| && |replies| == |proteins|
    ensures results.Failure? <==> !AllSucceed(proteins, SafeProteinName)
    ensures results.Failure? ==>
      && requests == []
      && results.error == TryMap(proteins, SafeProteinName).error
    ensures results.Success? ==>
      var names := TryMap(proteins, SafeProteinName).value;
      && results.value == Resolved(names, responses, replies)
      && requests == BatchRequests(names, responses)
  {
    var processed := TryMap(proteins, SafeProteinName);
    if processed.Failure? {
      return Failure(processed.error), [];
    }
    var records;
    records, requests := ResolveAll(processed.value, responses, replies);
    results := Success(records);
  }
}
