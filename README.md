# Protein target lookup: a Dafny model of its two-stage pipeline

The modelled program is a small tool for drug discovery. Given a disease, it
asks a language model for candidate protein targets as a JSON array. It then
resolves an amino-acid sequence for each target. It tries the UniProt
database first (an exact gene-name search, human entries only, reviewed
entries only). When the database finds nothing, it asks the language model for
the sequence in a two-line FASTA template. When that request fails too, it
records the error for that target alone.

This project models that pipeline on values. Every external call (HTTP
request, chat completion, JSON parsing, URL encoding) is replaced by an
abstract outcome that the caller supplies:

- `PyStr`: the Python string operations the program relies on. These are
  `str.isspace`, `strip()` and `strip(chars)`, `split()[0]`,
  `split('\n', 1)[-1]` and `replace(' ', '')`.
- `TargetNames`: `safe_protein_name`. A target is either plain text or an
  object given as its key/value pairs in insertion order. An empty object and
  a blank string are explicit errors.
- `Wrappers`: `Option`, `Result`, `Attempt` (returned or raised), the
  `"Error: " + msg` text, and `TryMap`. `TryMap` is the list comprehension
  that normalises every entry and stops at the first one that raises.
- `Uniprot`: the search query and URL templates, and the decision made by
  `search_uniprot_safe` on whatever the HTTP request produced.
- `SequenceChain`: the per-name chain, the FASTA post-processing, and the
  loop of `get_amino_acid_sequences` as a method. The loop is proved against
  the function `Resolved` and against the list of outbound requests it makes.
- `Discovery`: the error-to-`[]` handling of `get_protein_targets`. It returns
  the targets and the messages sent to the error surface.

Behaviour of the code worth noting:

- `safe_protein_name` can raise. `list(protein.values())[0]` is evaluated
  eagerly, so an empty object raises `IndexError` whatever keys are asked
  for. `split()[0]` raises on an empty or all-whitespace string. Both
  happen before the per-name `try`, so either one aborts the whole batch.
- The normalised name can be empty, for a word made only of quote
  characters or an object value `""`.
- The record branch strips nothing, so a name taken from an object can carry
  whitespace or quotes.
- `raise_for_status` rejects only status codes 400 to 599. Any other status
  is parsed as usual.
- A database hit is used as it comes back, and its sequence may be empty.

## Model

| member | source | states |
|---|---|---|
| Wrappers.ErrorText | app.py:100 | the text is `"Error: "` followed by the exception's message, so it is never empty |
| Wrappers.TryMap | app.py:68 | succeeds exactly when every entry normalises; then it gives one name per entry, in order, each that entry's own; otherwise it gives the error of the first failing entry, and every entry before that one normalised |
| PyStr.Strip | app.py:40 | the result is a slice of the input: everything cut from either end is a dropped character, and neither end of the result is one |
| PyStr.StripAround | app.py:26 | dropped characters added around a string whose ends are kept are removed again |
| PyStr.FirstWord | app.py:40 | `split()[0]` fails exactly when the text is all whitespace; otherwise the word is non-empty and holds no whitespace |
| PyStr.FirstWordOf | app.py:40 | for any leading whitespace, any word, and any rest that is empty or starts with whitespace, `split()[0]` of their concatenation is that word |
| PyStr.AfterFirstNewline | app.py:94 | with no line break the whole text is kept; otherwise the text is a first line without a line break, then `\n`, then the result |
| PyStr.AfterFirstNewlineOf | app.py:94 | for a first line without a line break, what follows its `\n` is kept exactly, later line breaks included |
| PyStr.RemoveSpaces | app.py:94 | the result has no space; every other character occurs as often as in the input; a text without spaces is unchanged |
| PyStr.RemoveSpacesAppend | app.py:94 | removing spaces works piece by piece, so the kept characters keep their order |
| TargetNames.Find | app.py:39 | a key lookup finds the value of the first pair with that key, and finds nothing exactly when no pair has it |
| TargetNames.SafeProteinName | app.py:36-40 | fails exactly for an empty object (`EmptyRecord`) or a string with no non-whitespace character (`NoWord`); otherwise the record branch's or the text branch's name |
| TargetNames.RecordName | app.py:38-39 | an object yields a name exactly when it is non-empty (otherwise `EmptyRecord`), and the name is one of its values |
| TargetNames.RecordPrefersName | app.py:39 | an object with a `name` key yields that key's value |
| TargetNames.RecordFallsBackToProteinName | app.py:39 | without `name`, an object with a `proteinName` key yields that key's value |
| TargetNames.RecordFallsBackToFirstValue | app.py:39 | without either key, a non-empty object yields its first value in insertion order |
| TargetNames.RecordExample | app.py:39 | `{"proteinName": "SOD1", "accession": "P00441"}` yields `SOD1` |
| TargetNames.TextName | app.py:40 | a string yields a name exactly when it holds a non-whitespace character (otherwise `NoWord`); the name holds no whitespace and has no quote at either end |
| TargetNames.TextNameIsFirstWord | app.py:40 | the name of a string is its first whitespace-delimited word with `'` and `"` stripped from both ends; the rest of the string does not matter |
| TargetNames.BareNameUnchanged | app.py:40 | a word without whitespace and without a quote at either end comes through unchanged |
| TargetNames.BlankTextExample | app.py:40 | a whitespace-only string cannot be normalised |
| Uniprot.GeneQueryRoundTrip | app.py:45 | the gene name can be read back from the search query between its fixed gene, organism 9606 and reviewed parts |
| Uniprot.SearchUrlRoundTrip | app.py:46 | the encoded query can be read back from the URL between the fixed endpoint and the JSON, field list and `size=1` parameters |
| Uniprot.SearchUrlInjective | app.py:45-46 | with an injective encoding, different names give different request URLs |
| Uniprot.SearchUniprotSafe | app.py:44-61 | a record exactly when a response without a 4xx/5xx status carries JSON whose `results` is non-empty and whose first hit has a protein name and a sequence; that record carries the database's protein name and sequence and the `UniProt` tag; every other outcome is `None` and nothing is raised |
| Uniprot.OnlyFirstHitMatters | app.py:52-57 | only the first hit of `results` decides the outcome |
| Uniprot.ErrorStatusIsMiss | app.py:49 | a 4xx/5xx status gives `None` whatever the body |
| SequenceChain.ProcessFasta | app.py:91-94 | the processed reply never contains a space |
| SequenceChain.ProcessFastaTemplate | app.py:91-94 | a reply in the requested template (a header line, then the residues) yields exactly the residues |
| SequenceChain.ProcessFastaSingleLine | app.py:91-94 | a reply without a line break keeps all its stripped text, minus spaces |
| SequenceChain.ProcessFastaDropsFirstLine | app.py:91-94 | a reply with a line break loses its first line; later lines, tabs and line breaks are kept and only spaces are removed |
| SequenceChain.ResolveName | app.py:72-102 | the source is `UniProt` exactly on a database hit, and then the record is the hit unchanged; `GPT-4` exactly on a miss with a fallback reply, with the queried name and the processed reply; `Failed` exactly on a miss with a raised fallback, with the queried name and `"Error: " + msg` |
| SequenceChain.FallbackOnlyOnMiss | app.py:74-77 | on a database hit the fallback's outcome makes no difference |
| SequenceChain.Misses | app.py:74-77 | the number of names counted as misses is the number of positions whose lookup gives `None` |
| SequenceChain.BatchRequestsCount | app.py:71-89 | a batch makes one database request per name, plus one language-model request per name the database missed |
| SequenceChain.PromptFollowsMiss | app.py:74-89 | every language-model request directly follows the database search for the same name, and belongs to the k-th name (it comes right after the requests of the names before it) whose own lookup missed, so duplicates are told apart |
| SequenceChain.Resolved | app.py:65-102 | one record per name, in order, duplicates included; the k-th record depends only on the k-th name and its own outcomes |
| SequenceChain.ResolveAll | app.py:71-102 | the loop builds exactly `Resolved` of the names and makes exactly the requests of the batch, in order |
| SequenceChain.GetAminoAcidSequences | app.py:63-102 | fails exactly when some entry cannot be normalised, and then makes no request and reports the first failing entry's error; otherwise it gives one record per entry, in input order, and makes that batch's requests |
| Discovery.GetProteinTargets | app.py:19-30 | at most one error report; no report exactly when the call returned and its stripped reply parsed, and then the targets are the parsed value unchanged; on any failure the targets are `[]` and the one report is `"Error: " + msg` |
| Discovery.EmptyTargetsAmbiguous | app.py:27-30 | the targets are empty exactly when the call raised, the parse raised, or the model returned an empty array |
| Discovery.DiscoveryIgnoresSurroundingSpace | app.py:26-27 | whitespace around the reply does not change what discovery returns |

## Left out

- The Streamlit page, session state and button wiring (app.py:124-170) are presentation, not pipeline logic.
- The HTML built from the records, with its 50-character preview (app.py:104-121), is not modelled. `GetAminoAcidSequences` returns the record list instead.
- The chat-completion requests (model name, prompts, temperature, token limits) are not modelled. Their outcomes are parameters: `Attempt` values for discovery and for each name's fallback.
- The HTTP request and its 10-second timeout are not modelled. Each name's outcome is a parameter `HttpOutcome`.
- `json.loads`, `response.json()` and `urllib.parse.quote_plus` are library code and are not modelled. They are a parse parameter, the `Body` datatype and a `quote` parameter.
- Debug `print` calls (app.py:12, 60, 69) only log.
- Only strings and objects with string values are target entries. The program's `str()` of other JSON values is not modelled.
- Discovery only considers a JSON array of targets. A reply that parses to another JSON value is not modelled.
- Request trace: a database search is recorded by its query text (`GeneQuery`), not by the encoded URL. `SearchUrl` and its lemmas are about the URL built from that query, which the trace does not hold.
- `Hit`: the values at `['proteinName']['value']` and `['sequence']['value']` are taken to be strings. The program would put any JSON value there into the record unchanged.
- Record keys are assumed pairwise distinct, as in a Python dict. `Find` returns the first matching pair.
