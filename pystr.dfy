/** The pieces of Python's `str` that the pipeline relies on: `isspace`,
    `strip()` / `strip(chars)`, `split()[0]`, `split('\n', 1)[-1]` and
    `replace(' ', '')`, written out on `seq<char>`. */
module PyStr {
  import opened Wrappers

  /** Python's `str.isspace` for one character: the characters that `split()`
      with no separator and `strip()` with no argument treat as whitespace. */
  predicate IsSpace(c: char) {
    || c == ' '
    || ('\t' <= c <= '\r')              // \t \n \v \f \r
    || ('\U{1c}' <= c <= '\U{1f}')      // file, group, record and unit separators
    || c == '\U{85}' || c == '\U{a0}' || c == '\U{1680}'
    || ('\U{2000}' <= c <= '\U{200a}')
    || c == '\U{2028}' || c == '\U{2029}' || c == '\U{202f}' || c == '\U{205f}' || c == '\U{3000}'
  }

  /** The characters of the argument of `strip('"\'')`. */
  predicate IsQuote(c: char) {
    c == '"' || c == '\''
  }

  /** Drops the leading characters that satisfy `drop` (the left half of `strip`). */
  function TrimStart(s: string, drop: char -> bool): (r: string)
    ensures |r| <= |s| && r == s[|s| - |r|..]
    ensures forall i :: 0 <= i < |s| - |r| ==> drop(s[i])
    ensures r != [] ==> !drop(r[0])
  {
    if s == [] || !drop(s[0]) then s else TrimStart(s[1..], drop)
  }

  /** Drops the trailing characters that satisfy `drop` (the right half of `strip`). */
  function TrimEnd(s: string, drop: char -> bool): (r: string)
    ensures |r| <= |s| && r == s[..|r|]
    ensures forall i :: |r| <= i < |s| ==> drop(s[i])
    ensures r != [] ==> !drop(r[|r| - 1])
  {
    if s == [] || !drop(s[|s| - 1]) then s else TrimEnd(s[..|s| - 1], drop)
  }

  /** Python's `strip`: `Strip(s, IsSpace)` is `s.strip()` and
      `Strip(s, IsQuote)` is `s.strip('"\'')`. The result is the slice of `s`
      left once every character satisfying `drop` has been removed from both
      ends, and neither of its ends satisfies `drop`. */
  function Strip(s: string, drop: char -> bool): (r: string)
    ensures r != [] ==> !drop(r[0]) && !drop(r[|r| - 1])
    ensures var k := |s| - |TrimStart(s, drop)|;
      && k + |r| <= |s|
      && r == s[k..k + |r|]
      && (forall i :: 0 <= i < k ==> drop(s[i]))
      && (forall i :: k + |r| <= i < |s| ==> drop(s[i]))
  {
    TrimEnd(TrimStart(s, drop), drop)
  }

  /** A string whose two ends are kept by `drop` is its own strip. */
  lemma StripKeeps(s: string, drop: char -> bool)
    requires s != [] && !drop(s[0]) && !drop(s[|s| - 1])
    ensures Strip(s, drop) == s
  {
  }

  lemma {:induction false} TrimEndSkips(t: string, trail: string, drop: char -> bool)
    requires forall i :: 0 <= i < |trail| ==> drop(trail[i])
    requires t != [] && !drop(t[|t| - 1])
    ensures TrimEnd(t + trail, drop) == t
  {
    if trail != [] {
      var n := |trail| - 1;
      assert (t + trail)[..|t + trail| - 1] == t + trail[..n];
      TrimEndSkips(t, trail[..n], drop);
    }
  }

  /** Characters that `drop` removes, put around a string whose ends it keeps,
      are stripped again. */
  lemma StripAround(lead: string, t: string, trail: string, drop: char -> bool)
    requires forall i :: 0 <= i < |lead| ==> drop(lead[i])
    requires forall i :: 0 <= i < |trail| ==> drop(trail[i])
    requires t != [] && !drop(t[0]) && !drop(t[|t| - 1])
    ensures Strip(lead + t + trail, drop) == t
  {
    assert lead + t + trail == lead + (t + trail);
    TrimStartSkips(lead, t + trail, drop);
    TrimEndSkips(t, trail, drop);
  }

  /** The longest prefix of `t` without whitespace. */
  function LeadingWord(t: string): (w: string)
    ensures |w| <= |t| && w == t[..|w|]
    ensures forall i :: 0 <= i < |w| ==> !IsSpace(w[i])
    ensures |w| == |t| || IsSpace(t[|w|])
  {
    if t == [] || IsSpace(t[0]) then [] else [t[0]] + LeadingWord(t[1..])
  }

  /** Python's `s.split()[0]`: the first maximal run of non-whitespace
      characters, or `None` where Python raises `IndexError` because the
      string is empty or all whitespace. */
  function FirstWord(s: string): (r: Option<string>)
    ensures r.None? <==> forall i :: 0 <= i < |s| ==> IsSpace(s[i])
    ensures r.Some? ==> r.value != [] && forall i :: 0 <= i < |r.value| ==> !IsSpace(r.value[i])
  {
    var t := TrimStart(s, IsSpace);
    if t == [] then None else Some(LeadingWord(t))
  }

  lemma {:induction false} TrimStartSkips(lead: string, t: string, drop: char -> bool)
    requires forall i :: 0 <= i < |lead| ==> drop(lead[i])
    requires t != [] && !drop(t[0])
    ensures TrimStart(lead + t, drop) == t
  {
    if lead != [] {
      var s := lead + t;
      assert s[0] == lead[0] && s[1..] == lead[1..] + t;
      assert TrimStart(s, drop) == TrimStart(s[1..], drop);
      TrimStartSkips(lead[1..], t, drop);
    } else {
      assert lead + t == t;
    }
  }

  lemma {:induction false} LeadingWordStopsAtSpace(word: string, rest: string)
    requires forall i :: 0 <= i < |word| ==> !IsSpace(word[i])
    requires rest == [] || IsSpace(rest[0])
    ensures LeadingWord(word + rest) == word
  {
    if word != [] {
      assert (word + rest)[1..] == word[1..] + rest;
      LeadingWordStopsAtSpace(word[1..], rest);
    }
  }

  /** `split()[0]` characterised independently: whatever whitespace precedes
      it and whatever follows the next whitespace, the first word is found. */
  lemma FirstWordOf(lead: string, word: string, rest: string)
    requires forall i :: 0 <= i < |lead| ==> IsSpace(lead[i])
    requires word != [] && forall i :: 0 <= i < |word| ==> !IsSpace(word[i])
    requires rest == [] || IsSpace(rest[0])
    ensures FirstWord(lead + word + rest) == Some(word)
  {
    assert lead + word + rest == lead + (word + rest);
    TrimStartSkips(lead, word + rest, IsSpace);
    LeadingWordStopsAtSpace(word, rest);
  }

  /** The position of the first `c` in `s`, if any. */
  function IndexOf(s: string, c: char): (r: Option<nat>)
    ensures r.None? <==> c !in s
    ensures r.Some? ==> r.value < |s| && s[r.value] == c && c !in s[..r.value]
  {
    if s == [] then None
    else if s[0] == c then Some(0)
    else match IndexOf(s[1..], c)
      case None => None
      case Some(k) =>
        assert s[..k + 1] == [s[0]] + s[1..][..k];
        Some(k + 1)
  }

  /** Python's `s.split('\n', 1)[-1]`: what follows the first line break, or
      the whole string when it has none. */
  function AfterFirstNewline(s: string): (r: string)
    ensures '\n' !in s ==> r == s
    ensures '\n' in s ==> |r| < |s| && s == s[..|s| - |r| - 1] + "\n" + r && '\n' !in s[..|s| - |r| - 1]
  {
    match IndexOf(s, '\n')
    case None => s
    case Some(k) =>
      assert s == s[..k] + "\n" + s[k + 1..];
      s[k + 1..]
  }

  lemma {:induction false} IndexOfFirst(head: string, c: char, rest: string)
    requires c !in head
    ensures IndexOf(head + [c] + rest, c) == Some(|head|)
  {
    if head != [] {
      assert (head + [c] + rest)[1..] == head[1..] + [c] + rest;
      IndexOfFirst(head[1..], c, rest);
    }
  }

  /** The first line break splits a string into the first line and what
      `split('\n', 1)[-1]` keeps. */
  lemma AfterFirstNewlineOf(line: string, rest: string)
    requires '\n' !in line
    ensures AfterFirstNewline(line + "\n" + rest) == rest
  {
    IndexOfFirst(line, '\n', rest);
    assert (line + "\n" + rest)[|line| + 1..] == rest;
  }

  /** Python's `s.replace(' ', '')`: every space character removed, every other
      character kept, in order. */
  function RemoveSpaces(s: string): (r: string)
    ensures ' ' !in r
    ensures forall c :: c != ' ' ==> multiset(r)[c] == multiset(s)[c]
    ensures ' ' !in s ==> r == s
  {
    if s == [] then []
    else
      assert s == [s[0]] + s[1..];
      (if s[0] == ' ' then [] else [s[0]]) + RemoveSpaces(s[1..])
  }

  /** Removing spaces works piece by piece, so the order of the kept
      characters is the order they had. */
  lemma {:induction false} RemoveSpacesAppend(a: string, b: string)
    ensures RemoveSpaces(a + b) == RemoveSpaces(a) + RemoveSpaces(b)
  {
    if a != [] {
      assert (a + b)[0] == a[0] && (a + b)[1..] == a[1..] + b;
      RemoveSpacesAppend(a[1..], b);
      var head := if a[0] == ' ' then [] else [a[0]];
      calc {
        RemoveSpaces(a + b);
        head + RemoveSpaces(a[1..] + b);
        head + (RemoveSpaces(a[1..]) + RemoveSpaces(b));
        (head + RemoveSpaces(a[1..])) + RemoveSpaces(b);
      }
    } else {
      assert a + b == b;
    }
  }
}
