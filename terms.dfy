/**
 Key-concept extraction (consultar_streamlit_v2.py, `obtener_terminos_clave`).
 The language model's reply is an opaque string; the deterministic part is
 `[term.strip() for term in reply.split(',')]`, modelled here as Python's
 `str.split` with an explicit one-character separator and `str.strip()`
 with no argument.
 */
module Terms {

  const Comma: char := ','

  /** Python's `str.isspace` for a single character: the ASCII controls
      TAB..CR and FS..US, SPACE, NEL, NO-BREAK SPACE and the Unicode space
      separators and line/paragraph separators. */
  predicate IsSpace(c: char)
    ensures IsSpace(c) ==> c <= ' ' || '\U{85}' <= c
  {
    c == ' ' || ('\t' <= c <= '\r') || ('\U{1c}' <= c <= '\U{1f}')
    || c == '\U{85}' || c == '\U{a0}' || c == '\U{1680}'
    || ('\U{2000}' <= c <= '\U{200a}') || c == '\U{2028}' || c == '\U{2029}'
    || c == '\U{202f}' || c == '\U{205f}' || c == '\U{3000}'
  }

  /** `s.lstrip()`: drops the leading whitespace and nothing else. */
  function StripLeft(s: string): (r: string)
    ensures |r| <= |s| && r == s[|s| - |r|..]
    ensures r == [] || !IsSpace(r[0])
    ensures forall k :: 0 <= k < |s| - |r| ==> IsSpace(s[k])
  {
    if s != [] && IsSpace(s[0]) then StripLeft(s[1..]) else s
  }

  /** `s.rstrip()`: drops the trailing whitespace and nothing else. */
  function StripRight(s: string): (r: string)
    ensures |r| <= |s| && r == s[..|r|]
    ensures r == [] || !IsSpace(r[|r| - 1])
    ensures forall k :: |r| <= k < |s| ==> IsSpace(s[k])
  {
    if s != [] && IsSpace(s[|s| - 1]) then StripRight(s[..|s| - 1]) else s
  }

  /** `s.strip()`: the infix of `s` left after removing whitespace at both ends;
      everything removed is whitespace and the result neither starts nor ends
      with whitespace. */
  function Strip(s: string): (r: string)
    ensures r == [] || (!IsSpace(r[0]) && !IsSpace(r[|r| - 1]))
    ensures var i := |s| - |StripLeft(s)|;
      && i + |r| <= |s|
      && r == s[i..i + |r|]
      && (forall k :: 0 <= k < i ==> IsSpace(s[k]))
      && (forall k :: i + |r| <= k < |s| ==> IsSpace(s[k]))
  {
    StripRight(StripLeft(s))
  }

  /** Whatever cut of `s` into leading whitespace, a middle that starts and ends
      with non-whitespace (or is empty), and trailing whitespace, the middle is
      `Strip(s)`: the contract of `Strip` determines it. */
  lemma StripUnique(s: string, i: nat, j: nat)
    requires i <= j <= |s|
    requires forall k :: 0 <= k < i ==> IsSpace(s[k])
    requires forall k :: j <= k < |s| ==> IsSpace(s[k])
    requires i == j || (!IsSpace(s[i]) && !IsSpace(s[j - 1]))
    ensures Strip(s) == s[i..j]
  {
    var left := StripLeft(s);
    var r := Strip(s);
    var l := |s| - |left|;
    assert l < |s| ==> left[0] == s[l] && !IsSpace(s[l]);
    assert r != [] ==> r[|r| - 1] == s[l + |r| - 1] && !IsSpace(s[l + |r| - 1]);
  }

  /** How many times `c` occurs in `s`. */
  function Occurrences(s: string, c: char): nat
  {
    if s == [] then 0 else (if s[0] == c then 1 else 0) + Occurrences(s[1..], c)
  }

  /** Python's `s.split(sep)` with an explicit separator: the pieces between
      separators, empty pieces kept, so there is always one more piece than
      there are separators. */
  function Split(s: string, sep: char): (parts: seq<string>)
    ensures |parts| == Occurrences(s, sep) + 1
    ensures forall k :: 0 <= k < |parts| ==> sep !in parts[k]
  {
    if s == [] then [[]]
    else
      var rest := Split(s[1..], sep);
      if s[0] == sep then [[]] + rest
      else [[s[0]] + rest[0]] + rest[1..]
  }

  /** `sep.join(parts)`. */
  function Join(parts: seq<string>, sep: char): string
    requires parts != []
  {
    if |parts| == 1 then parts[0] else parts[0] + [sep] + Join(parts[1..], sep)
  }

  /** Splitting loses nothing: joining the pieces back gives the reply. */
  lemma {:induction false} SplitJoin(s: string, sep: char)
    ensures Join(Split(s, sep), sep) == s
  {
    if s != [] {
      var tail := s[1..];
      var rest := Split(tail, sep);
      SplitJoin(tail, sep);
      var parts := Split(s, sep);
      if s[0] == sep {
        assert parts == [[]] + rest;
        assert parts[1..] == rest;
        assert Join(parts, sep) == [sep] + tail;
      } else if |rest| == 1 {
        assert parts == [[s[0]] + rest[0]];
        assert Join(parts, sep) == [s[0]] + tail;
      } else {
        assert parts == [[s[0]] + rest[0]] + rest[1..];
        assert parts[1..] == rest[1..];
        assert Join(parts, sep) == [s[0]] + rest[0] + [sep] + Join(rest[1..], sep);
        assert Join(parts, sep) == [s[0]] + tail;
      }
      assert s == [s[0]] + tail;
    }
  }

  /** A separator-free prefix stays glued to the first piece. */
  lemma {:induction false} SplitPrefix(p: string, t: string, sep: char)
    requires sep !in p
    ensures Split(p + t, sep) == [p + Split(t, sep)[0]] + Split(t, sep)[1..]
  {
    var rest := Split(t, sep);
    if p != [] {
      SplitPrefix(p[1..], t, sep);
      assert (p + t)[1..] == p[1..] + t;
      assert (p + t)[0] == p[0];
      assert [p[0]] + (p[1..] + rest[0]) == p + rest[0];
    } else {
      assert p + t == t;
      assert rest == [rest[0]] + rest[1..];
      assert p + rest[0] == rest[0];
    }
  }

  /** Splitting undoes joining separator-free pieces. */
  lemma {:induction false} JoinSplit(parts: seq<string>, sep: char)
    requires parts != []
    requires forall k :: 0 <= k < |parts| ==> sep !in parts[k]
    ensures Split(Join(parts, sep), sep) == parts
  {
    var p := parts[0];
    if |parts| == 1 {
      SplitPrefix(p, [], sep);
      assert p + [] == p;
    } else {
      var tail := Join(parts[1..], sep);
      JoinSplit(parts[1..], sep);
      assert Split([sep] + tail, sep) == [[]] + parts[1..] by {
        assert ([sep] + tail)[1..] == tail;
      }
      SplitPrefix(p, [sep] + tail, sep);
      assert p + [sep] + tail == p + ([sep] + tail);
      assert p + [] == p;
      assert parts == [p] + parts[1..];
    }
  }

  /** Stripping only removes characters. */
  lemma StripKeepsOut(s: string, c: char)
    requires c !in s
    ensures c !in Strip(s)
  {
    var r := Strip(s);
    var i := |s| - |StripLeft(s)|;
    forall m | 0 <= m < |r|
      ensures r[m] != c
    {
      assert r[m] == s[i + m];
    }
  }

  /** `[term.strip() for term in reply.split(',')]`: one term per piece, in
      order, so one more term than the reply has commas; no term holds a comma
      or starts or ends with whitespace. */
  function ExtractTerms(reply: string): (terms: seq<string>)
    ensures |terms| == Occurrences(reply, Comma) + 1
    ensures forall k :: 0 <= k < |terms| ==> Comma !in terms[k]
    ensures forall k :: 0 <= k < |terms| && terms[k] != [] ==>
      !IsSpace(terms[k][0]) && !IsSpace(terms[k][|terms[k]| - 1])
  {
    var pieces := Split(reply, Comma);
    var terms := seq(|pieces|, k requires 0 <= k < |pieces| => Strip(pieces[k]));
    assert forall k :: 0 <= k < |terms| ==> Comma !in terms[k] by {
      forall k | 0 <= k < |terms|
        ensures Comma !in terms[k]
      {
        StripKeepsOut(pieces[k], Comma);
      }
    }
    terms
  }

  /** A reply made of comma-free pieces yields exactly those pieces, trimmed,
      in order. */
  lemma ExtractTermsOfJoin(parts: seq<string>)
    requires parts != []
    requires forall k :: 0 <= k < |parts| ==> Comma !in parts[k]
    ensures |ExtractTerms(Join(parts, Comma))| == |parts|
    ensures forall k :: 0 <= k < |parts| ==> ExtractTerms(Join(parts, Comma))[k] == Strip(parts[k])
  {
    JoinSplit(parts, Comma);
  }

  /** A reply with one comma gives two terms: the trimmed text on each side. */
  lemma ExtractTermsPair(a: string, b: string)
    requires Comma !in a && Comma !in b
    ensures ExtractTerms(a + [Comma] + b) == [Strip(a), Strip(b)]
  {
    var parts := [a, b];
    assert Join(parts, Comma) == a + [Comma] + b by {
      assert parts[1..] == [b];
    }
    ExtractTermsOfJoin(parts);
  }

  /** A reply in the requested format, two comma-free words separated by a
      comma and a space, gives back exactly those two words. */
  lemma ExtractTermsOfWords(first: string, second: string)
    requires Comma !in first && Comma !in second
    requires first != [] && !IsSpace(first[0]) && !IsSpace(first[|first| - 1])
    requires second != [] && !IsSpace(second[0]) && !IsSpace(second[|second| - 1])
    ensures ExtractTerms(first + ", " + second) == [first, second]
  {
    var padded := [' '] + second;
    CommaSpace(first, second);
    ExtractTermsPair(first, padded);
    StripWord(first);
    StripPadded([' '], second);
  }

  /** `", "` is a comma followed by a space. */
  lemma CommaSpace(a: string, b: string)
    ensures a + ", " + b == a + [Comma] + ([' '] + b)
  {
    assert ", " == [Comma] + [' '];
  }

  /** Stripping a word without surrounding whitespace keeps it whole. */
  lemma StripWord(word: string)
    requires word != [] && !IsSpace(word[0]) && !IsSpace(word[|word| - 1])
    ensures Strip(word) == word
  {
    StripPadded([], word);
    assert [] + word == word;
  }

  /** The reply `"sv17q, milorbs"` gives the terms `["sv17q", "milorbs"]`. */
  lemma ExtractTermsExample()
    ensures ExtractTerms("sv17q, milorbs") == ["sv17q", "milorbs"]
  {
    ExtractTermsOfWords("sv17q", "milorbs");
    assert "sv17q" + ", " + "milorbs" == "sv17q, milorbs";
  }

  /** Leading whitespace before a word is dropped and the word is kept. */
  lemma StripPadded(pad: string, word: string)
    requires forall k :: 0 <= k < |pad| ==> IsSpace(pad[k])
    requires word != [] && !IsSpace(word[0]) && !IsSpace(word[|word| - 1])
    ensures Strip(pad + word) == word
  {
    var s := pad + word;
    StripUnique(s, |pad|, |s|);
    assert s[|pad|..|s|] == word;
  }
}
