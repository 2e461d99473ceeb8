/** `safe_protein_name` (app.py:36-40) and the list comprehension that applies
    it to every discovered entry before any lookup (app.py:68). */
module TargetNames {
  import opened Wrappers
  import opened PyStr

  /** A discovered target as the JSON parser hands it over: a string, or an
      object given as its key/value pairs in insertion order. */
  datatype TargetEntry = Text(text: string) | Record(fields: seq<(string, string)>)

  /** Why `safe_protein_name` raised. In the program both are `IndexError`:
      `list(protein.values())[0]` on an empty object, `split()[0]` on a string
      with no word in it. */
  datatype NameError = EmptyRecord | NoWord

  /** The keys of a Python dict are pairwise distinct. */
  predicate DistinctKeys(fields: seq<(string, string)>) {
    forall i, j :: 0 <= i < j < |fields| ==> fields[i].0 != fields[j].0
  }

  /** The value stored under `key`, taken from the first pair that has it. */
  function Find(fields: seq<(string, string)>, key: string): (r: Option<string>)
    ensures r.None? <==> forall i :: 0 <= i < |fields| ==> fields[i].0 != key
    ensures r.Some? ==> exists i :: 0 <= i < |fields| && fields[i] == (key, r.value)
                          && forall j :: 0 <= j < i ==> fields[j].0 != key
  {
    if fields == [] then None
    else if fields[0].0 == key then Some(fields[0].1)
    else match Find(fields[1..], key)
      case None => None
      case Some(v) =>
        assert exists i :: 0 <= i < |fields| && fields[i] == (key, v)
                 && forall j :: 0 <= j < i ==> fields[j].0 != key
        by {
          var i :| 0 <= i < |fields[1..]| && fields[1..][i] == (key, v)
                   && forall j :: 0 <= j < i ==> fields[1..][j].0 != key;
          assert fields[i + 1] == (key, v);
          assert forall j :: 0 <= j < i + 1 ==> fields[j].0 != key by {
            forall j | 0 <= j < i + 1 ensures fields[j].0 != key {
              if j > 0 { assert fields[j] == fields[1..][j - 1]; }
            }
          }
        }
        Some(v)
  }

  /** Python's `d.get(key, default)`. */
  function Get(fields: seq<(string, string)>, key: string, default: string): string {
    match Find(fields, key)
    case Some(v) => v
    case None => default
  }

  /** The record branch of `safe_protein_name`: the `name` value, else the
      `proteinName` value, else the first value. The default
      `list(protein.values())[0]` is evaluated before either lookup, so an
      empty object fails whatever keys are asked for. The value is taken as
      it is: no quotes or whitespace are stripped. */
  function RecordName(fields: seq<(string, string)>): (r: Result<string, NameError>)
    ensures r.Success? <==> fields != []
    ensures r.Failure? ==> r.error == EmptyRecord
    ensures r.Success? ==> exists i :: 0 <= i < |fields| && fields[i].1 == r.value
  {
    if fields == [] then Failure(EmptyRecord)
    else Success(Get(fields, "name", Get(fields, "proteinName", fields[0].1)))
  }

  /** The string branch of `safe_protein_name`: the first whitespace-delimited
      word with the quote characters stripped from both ends. It holds no
      whitespace, and may be empty when the word is made of quotes only. */
  function TextName(s: string): (r: Result<string, NameError>)
    ensures r.Success? <==> exists i :: 0 <= i < |s| && !IsSpace(s[i])
    ensures r.Failure? ==> r.error == NoWord
    ensures r.Success? ==> forall i :: 0 <= i < |r.value| ==> !IsSpace(r.value[i])
    ensures r.Success? && r.value != [] ==> !IsQuote(r.value[0]) && !IsQuote(r.value[|r.value| - 1])
  {
    match FirstWord(s)
    case None => Failure(NoWord)
    case Some(w) =>
      var q := Strip(w, IsQuote);
      assert forall i :: 0 <= i < |q| ==> !IsSpace(q[i]) by {
        var k := |w| - |TrimStart(w, IsQuote)|;
        forall i | 0 <= i < |q| ensures !IsSpace(q[i]) { assert q[i] == w[k + i]; }
      }
      Success(q)
  }

  /** `safe_protein_name`: an object goes to the record branch, a string to
      the text branch, and the result is the branch's. */
  function SafeProteinName(entry: TargetEntry): (r: Result<string, NameError>)
    ensures r.Failure? <==>
      || (entry.Record? && entry.fields == [])
      || (entry.Text? && forall i :: 0 <= i < |entry.text| ==> IsSpace(entry.text[i]))
    ensures r.Failure? ==> r.error == (if entry.Record? then EmptyRecord else NoWord)
  {
    match entry
    case Record(fields) => RecordName(fields)
    case Text(s) => TextName(s)
  }

  /** A string entry: whatever whitespace comes before the first word and
      whatever follows it, the name is that word with its surrounding quote
      characters stripped, and nothing else of the string matters. */
  lemma TextNameIsFirstWord(lead: string, word: string, rest: string)
    requires forall i :: 0 <= i < |lead| ==> IsSpace(lead[i])
    requires word != [] && forall i :: 0 <= i < |word| ==> !IsSpace(word[i])
    requires rest == [] || IsSpace(rest[0])
    ensures SafeProteinName(Text(lead + word + rest)) == Success(Strip(word, IsQuote))
  {
    FirstWordOf(lead, word, rest);
  }

  /** An object with a `name` key yields that key's value. */
  lemma RecordPrefersName(fields: seq<(string, string)>, i: nat)
    requires DistinctKeys(fields)
    requires i < |fields| && fields[i].0 == "name"
    ensures SafeProteinName(Record(fields)) == Success(fields[i].1)
  {
    var j :| 0 <= j < |fields| && fields[j] == ("name", Find(fields, "name").value)
             && forall k :: 0 <= k < j ==> fields[k].0 != "name";
    assert j == i;
  }

  /** Without a `name` key, an object with a `proteinName` key yields that
      key's value. */
  lemma RecordFallsBackToProteinName(fields: seq<(string, string)>, i: nat)
    requires DistinctKeys(fields)
    requires forall k :: 0 <= k < |fields| ==> fields[k].0 != "name"
    requires i < |fields| && fields[i].0 == "proteinName"
    ensures SafeProteinName(Record(fields)) == Success(fields[i].1)
  {
    var j :| 0 <= j < |fields| && fields[j] == ("proteinName", Find(fields, "proteinName").value)
             && forall k :: 0 <= k < j ==> fields[k].0 != "proteinName";
    assert j == i;
  }

  /** Without either key, a non-empty object yields the value it lists first. */
  lemma RecordFallsBackToFirstValue(fields: seq<(string, string)>)
    requires fields != []
    requires forall k :: 0 <= k < |fields| ==> fields[k].0 != "name" && fields[k].0 != "proteinName"
    ensures SafeProteinName(Record(fields)) == Success(fields[0].1)
  {
  }

  /** Example: `{"proteinName": "SOD1", "accession": "P00441"}` yields `SOD1`. */
  lemma RecordExample()
    ensures SafeProteinName(Record([("proteinName", "SOD1"), ("accession", "P00441")])) == Success("SOD1")
  {
  }

  /** A bare name (no whitespace, no quote at either end) comes through
      unchanged, as `SOD1` and `TARDBP` do. */
  lemma BareNameUnchanged(word: string)
    requires word != [] && forall i :: 0 <= i < |word| ==> !IsSpace(word[i])
    requires !IsQuote(word[0]) && !IsQuote(word[|word| - 1])
    ensures SafeProteinName(Text(word)) == Success(word)
  {
    assert word == [] + word + [];
    TextNameIsFirstWord([], word, []);
    StripKeeps(word, IsQuote);
  }

  /** Example: a string of whitespace only has no first word. */
  lemma BlankTextExample()
    ensures SafeProteinName(Text(" \t ")) == Failure(NoWord)
  {
    var s := " \t ";
    assert IsSpace(s[0]) && IsSpace(s[1]) && IsSpace(s[2]);
    assert FirstWord(s) == None;
  }
}
