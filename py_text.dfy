/** The three operations on Python `str` values that the filename decorator
    relies on: `strip()` with no argument, `split(sep)` with a one-character
    separator, and the substring test `key in text`. */
module PyText {

  /** Python's `str.isspace` for one character: the ASCII controls TAB to CR
      and FS to US, the space, and the Unicode space and separator characters. */
  predicate IsSpace(c: char) {
    || c == ' '
    || ('\t' <= c <= '\r')
    || ('\U{1c}' <= c <= '\U{1f}')
    || c == '\U{85}' || c == '\U{a0}' || c == '\U{1680}'
    || ('\U{2000}' <= c <= '\U{200a}')
    || c == '\U{2028}' || c == '\U{2029}' || c == '\U{202f}' || c == '\U{205f}'
    || c == '\U{3000}'
  }

  /** Number of whitespace characters at the front of `s`. */
  function LeadingSpaces(s: string): (n: nat)
    ensures n <= |s|
    ensures forall k :: 0 <= k < n ==> IsSpace(s[k])
    ensures n == |s| || !IsSpace(s[n])
    decreases |s|
  {
    if |s| > 0 && IsSpace(s[0]) then 1 + LeadingSpaces(s[1..]) else 0
  }

  /** Number of whitespace characters at the back of `s`. */
  function TrailingSpaces(s: string): (n: nat)
    ensures n <= |s|
    ensures forall k :: |s| - n <= k < |s| ==> IsSpace(s[k])
    ensures n == |s| || !IsSpace(s[|s| - 1 - n])
    decreases |s|
  {
    if |s| > 0 && IsSpace(s[|s| - 1]) then 1 + TrailingSpaces(s[..|s| - 1]) else 0
  }

  /** `s.strip()`: the slice of `s` that keeps every non-whitespace character
      and starts and ends with one (empty if `s` is all whitespace). */
  function Strip(s: string): (r: string)
    ensures LeadingSpaces(s) + |r| <= |s|
    ensures r == s[LeadingSpaces(s)..LeadingSpaces(s) + |r|]
    ensures forall k :: 0 <= k < |s| && !IsSpace(s[k]) ==>
              LeadingSpaces(s) <= k < LeadingSpaces(s) + |r|
    ensures r == [] || (!IsSpace(r[0]) && !IsSpace(r[|r| - 1]))
  {
    var front := s[LeadingSpaces(s)..];
    front[..|front| - TrailingSpaces(front)]
  }

  /** Stripping text that neither starts nor ends with whitespace leaves it unchanged. */
  lemma StripUntouched(s: string)
    requires s == [] || (!IsSpace(s[0]) && !IsSpace(s[|s| - 1]))
    ensures Strip(s) == s
  {
    if s != [] {
      assert LeadingSpaces(s) == 0;
      var r := Strip(s);
      assert !IsSpace(s[|s| - 1]);
      assert |r| == |s|;
    }
  }

  /** Stripping a line read with its newline gives back the bare text. */
  lemma StripNewline(s: string)
    requires s != [] && !IsSpace(s[0]) && !IsSpace(s[|s| - 1])
    ensures Strip(s + "\n") == s
  {
    var line := s + "\n";
    assert line[0] == s[0];
    assert LeadingSpaces(line) == 0;
    assert line[..|line| - 1] == s;
    assert TrailingSpaces(line[..|line| - 1]) == 0;
    assert TrailingSpaces(line) == 1;
  }

  /** `strip()` is idempotent. */
  lemma StripIdempotent(s: string)
    ensures Strip(Strip(s)) == Strip(s)
  {
    StripUntouched(Strip(s));
  }

  /** `sep.join(parts)`, the inverse of `split`. */
  function Join(parts: seq<string>, sep: char): string
    requires |parts| >= 1
  {
    if |parts| == 1 then parts[0] else parts[0] + [sep] + Join(parts[1..], sep)
  }

  /** `s.split(sep)`: the maximal `sep`-free pieces between the separators,
      empty pieces included, so there is always at least one piece. */
  function Split(s: string, sep: char): (parts: seq<string>)
    ensures |parts| >= 1
    ensures forall p :: p in parts ==> sep !in p
    ensures Join(parts, sep) == s
    decreases |s|
  {
    if |s| == 0 then [""]
    else
      var rest := Split(s[1..], sep);
      if s[0] == sep then [""] + rest
      else [[s[0]] + rest[0]] + rest[1..]
  }

  /** Splitting a join of `sep`-free pieces gives the pieces back. */
  lemma {:induction false} SplitJoin(parts: seq<string>, sep: char)
    requires |parts| >= 1
    requires forall p :: p in parts ==> sep !in p
    ensures Split(Join(parts, sep), sep) == parts
    decreases |parts|, |parts[0]|
  {
    if |parts| == 1 {
      SplitOfFree(parts[0], sep);
    } else if parts[0] == [] {
      var tail := Join(parts[1..], sep);
      assert Join(parts, sep) == [sep] + tail;
      SplitJoin(parts[1..], sep);
      SplitAfterSep(tail, sep);
      assert parts == [""] + parts[1..];
    } else {
      var c := parts[0][0];
      var shorter := [parts[0][1..]] + parts[1..];
      JoinShift(parts, sep);
      assert parts[0] in parts;
      assert c != sep && sep !in parts[0][1..] by {
        assert c == parts[0][0];
        assert forall k :: 0 <= k < |parts[0]| - 1 ==> parts[0][1..][k] == parts[0][k + 1];
      }
      assert forall p :: p in shorter ==> sep !in p by {
        assert forall p :: p in shorter ==> p == parts[0][1..] || p in parts[1..];
        assert forall p :: p in parts[1..] ==> p in parts;
      }
      SplitJoin(shorter, sep);
      SplitAfterChar(c, Join(shorter, sep), sep);
      assert parts[0] == [c] + shorter[0];
      assert parts == [[c] + shorter[0]] + shorter[1..];
    }
  }

  /** Moving the first character of the first piece out of a join. */
  lemma JoinShift(parts: seq<string>, sep: char)
    requires |parts| >= 1 && parts[0] != []
    ensures Join(parts, sep) == [parts[0][0]] + Join([parts[0][1..]] + parts[1..], sep)
  {
    var shorter := [parts[0][1..]] + parts[1..];
    assert shorter[1..] == parts[1..];
    assert parts[0] == [parts[0][0]] + parts[0][1..];
  }

  /** A leading separator starts an empty first piece. */
  lemma SplitAfterSep(s: string, sep: char)
    ensures Split([sep] + s, sep) == [""] + Split(s, sep)
  {
    assert ([sep] + s)[1..] == s;
  }

  /** A leading non-separator character joins the first piece. */
  lemma SplitAfterChar(c: char, s: string, sep: char)
    requires c != sep
    ensures Split([c] + s, sep) == [[c] + Split(s, sep)[0]] + Split(s, sep)[1..]
  {
    assert ([c] + s)[1..] == s;
  }

  /** A string without the separator splits into itself alone. */
  lemma {:induction false} SplitOfFree(s: string, sep: char)
    requires sep !in s
    ensures Split(s, sep) == [s]
    decreases |s|
  {
    if |s| > 0 {
      assert sep !in s[1..] by { assert forall k :: 0 <= k < |s| - 1 ==> s[1..][k] == s[k + 1]; }
      SplitOfFree(s[1..], sep);
      assert s == [s[0]] + s[1..];
    }
  }

  /** `key` occurs in `text` starting at index `i`. */
  predicate OccursAt(key: string, text: string, i: nat) {
    i + |key| <= |text| && text[i..i + |key|] == key
  }

  /** Python's `key in text` for two strings. */
  ghost predicate IsSubstring(key: string, text: string) {
    exists i: nat :: OccursAt(key, text, i)
  }

  /** Compares `key[m..]` with `text` at `i + m`, character by character. */
  function MatchesFrom(text: string, key: string, i: nat, m: nat): (b: bool)
    requires i + |key| <= |text| && m <= |key|
    ensures b <==> text[i + m..i + |key|] == key[m..]
    decreases |key| - m
  {
    if m == |key| then true
    else
      assert text[i + m..i + |key|] == [text[i + m]] + text[i + m + 1..i + |key|];
      assert key[m..] == [key[m]] + key[m + 1..];
      text[i + m] == key[m] && MatchesFrom(text, key, i, m + 1)
  }

  /** Scans `text` for `key` from index `from` on. */
  function ContainsFrom(text: string, key: string, from: nat): (b: bool)
    ensures b <==> exists i: nat :: from <= i && OccursAt(key, text, i)
    decreases |text| - from
  {
    if from + |key| > |text| then false
    else
      assert key[0..] == key;
      assert MatchesFrom(text, key, from, 0) <==> OccursAt(key, text, from);
      MatchesFrom(text, key, from, 0) || ContainsFrom(text, key, from + 1)
  }

  /** The executable substring test, `key in text`. */
  function Contains(text: string, key: string): (b: bool)
    ensures b <==> IsSubstring(key, text)
  {
    ContainsFrom(text, key, 0)
  }
}
