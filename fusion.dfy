/**
 Dual-mode retrieval and context fusion
 (consultar_streamlit_v2.py, `realizar_busqueda_avanzada`).

 For every term, in order, the top semantic hits and then the first lexical
 hits are considered; a passage is accepted when its content is not the
 "no content" placeholder and has not been accepted before (under any term,
 by either search). Each accepted passage appends one labelled block to the
 context and its URL to a set, which is returned sorted.

 The declarative side (`Candidates`, `Accepted`, `Render`) states what the
 result is; `AdvancedSearch` is the loop-by-loop procedure and is proved to
 compute it.
 */
module Fusion {
  import Ordering

  /** Results asked for per term in each search mode. */
  const ResultsPerTerm: nat := 5

  /** Stored content meaning "no usable content"; never used. The acceptance
      rules below are stated for any such sentinel and used with this one. */
  const Placeholder: string := "[Sin contenido principal en inglés o párrafos muy cortos]"

  /** A stored chunk of a post and the URL of the post it comes from. */
  datatype Passage = Passage(content: string, url: string)

  datatype Origin = Semantic | Lexical

  /** A passage found for a term by one of the two searches. */
  datatype Candidate = Candidate(term: string, origin: Origin, passage: Passage)

  /** What the search reads and never changes.
      `nearest(t)` is the vector index's whole ranking of stored chunks for the
      query text `t`, most similar first (embedding similarity is not
      modelled); `table` is the chunk table in row order; `upper` is Python's
      `str.upper`, which pandas applies to both the column and the term for a
      case-insensitive match. */
  datatype Store = Store(nearest: string -> seq<Passage>, table: seq<Passage>, upper: string -> string)

  /* ---------------------------------------------------------------------- */
  /* The two searches                                                        */
  /* ---------------------------------------------------------------------- */

  /** The vector query with `n_results = 5`: the best-ranked passages, at most
      five, in ranking order. */
  function SemanticHits(store: Store, term: string): (hits: seq<Passage>)
    ensures |hits| <= ResultsPerTerm
    ensures |hits| <= |store.nearest(term)| && hits == store.nearest(term)[..|hits|]
    ensures |hits| < ResultsPerTerm ==> hits == store.nearest(term)
  {
    var ranked := store.nearest(term);
    if |ranked| <= ResultsPerTerm then ranked else ranked[..ResultsPerTerm]
  }

  /** `needle` occurs in `hay` starting at position `i`. */
  predicate OccursAt(hay: string, needle: string, i: int)
  {
    0 <= i && i + |needle| <= |hay| && hay[i..i + |needle|] == needle
  }

  /** Python's `needle in hay` on strings: plain substring search. */
  predicate Contains(hay: string, needle: string)
    ensures Contains(hay, needle) ==> |needle| <= |hay|
  {
    needle <= hay || (hay != [] && Contains(hay[1..], needle))
  }

  /** `Contains` is substring occurrence at some position. */
  lemma {:induction false} ContainsIff(hay: string, needle: string)
    ensures Contains(hay, needle) <==> exists i :: OccursAt(hay, needle, i)
  {
    if needle <= hay {
      assert OccursAt(hay, needle, 0);
    } else if hay != [] {
      ContainsIff(hay[1..], needle);
      if exists i :: OccursAt(hay, needle, i) {
        var i :| OccursAt(hay, needle, i);
        assert OccursAt(hay[1..], needle, i - 1);
      }
      if exists i :: OccursAt(hay[1..], needle, i) {
        var i :| OccursAt(hay[1..], needle, i);
        assert hay[1..][i..i + |needle|] == hay[i + 1..i + 1 + |needle|];
        assert OccursAt(hay, needle, i + 1);
      }
    }
  }

  /** `row.contenido_chunk.str.contains(term, case=False, regex=False)`. */
  predicate Matches(store: Store, term: string, row: Passage)
    ensures Matches(store, term, row) <==>
      exists i :: OccursAt(store.upper(row.content), store.upper(term), i)
  {
    ContainsIff(store.upper(row.content), store.upper(term));
    Contains(store.upper(row.content), store.upper(term))
  }

  /** The rows of `rows` that match `term`, in table order. */
  function MatchingRows(store: Store, term: string, rows: seq<Passage>): (r: seq<Passage>)
    ensures |r| <= |rows|
    ensures forall p :: p in r <==> p in rows && Matches(store, term, p)
  {
    if rows == [] then []
    else (if Matches(store, term, rows[0]) then [rows[0]] else []) + MatchingRows(store, term, rows[1..])
  }

  /** `df[mask].head(5)`: the first five matching rows in table order (fewer
      when fewer match). */
  function LexicalHits(store: Store, term: string): (hits: seq<Passage>)
    ensures |hits| <= ResultsPerTerm
    ensures |hits| <= |MatchingRows(store, term, store.table)|
    ensures hits == MatchingRows(store, term, store.table)[..|hits|]
    ensures |hits| < ResultsPerTerm ==> hits == MatchingRows(store, term, store.table)
  {
    var matching := MatchingRows(store, term, store.table);
    if |matching| <= ResultsPerTerm then matching else matching[..ResultsPerTerm]
  }

  /** The filter of a table split in two is the filter of the first part
      followed by that of the second: rows keep their table order, and
      repeated rows are kept. */
  lemma {:induction false} MatchingRowsAppend(store: Store, term: string, a: seq<Passage>, b: seq<Passage>)
    ensures MatchingRows(store, term, a + b) == MatchingRows(store, term, a) + MatchingRows(store, term, b)
  {
    if a != [] {
      MatchingRowsAppend(store, term, a[1..], b);
      assert (a + b)[0] == a[0];
      assert (a + b)[1..] == a[1..] + b;
      var head := if Matches(store, term, a[0]) then [a[0]] else [];
      ConcatAssoc(head, MatchingRows(store, term, a[1..]), MatchingRows(store, term, b));
    } else {
      assert a + b == b;
    }
  }

  /** A single row is kept exactly when it matches. */
  lemma MatchingRowsSingle(store: Store, term: string, p: Passage)
    ensures MatchingRows(store, term, [p]) == if Matches(store, term, p) then [p] else []
  {
    assert [p][1..] == [];
  }

  /** An empty term matches every row, so it selects the first five rows. */
  lemma EmptyTermMatchesAll(store: Store)
    requires store.upper([]) == []
    ensures MatchingRows(store, [], store.table) == store.table
  {
    EmptyTermMatchesAllRows(store, store.table);
  }

  /** The same for any list of rows. */
  lemma {:induction false} EmptyTermMatchesAllRows(store: Store, rows: seq<Passage>)
    requires store.upper([]) == []
    ensures MatchingRows(store, [], rows) == rows
  {
    if rows != [] {
      EmptyTermMatchesAllRows(store, rows[1..]);
      assert rows == [rows[0]] + rows[1..];
    }
  }

  /* ---------------------------------------------------------------------- */
  /* The order in which passages are considered                              */
  /* ---------------------------------------------------------------------- */

  /** The passages found by one search for one term, as candidates. */
  function Tag(term: string, origin: Origin, passages: seq<Passage>): (cs: seq<Candidate>)
    ensures |cs| == |passages|
    ensures forall i :: 0 <= i < |cs| ==> cs[i] == Candidate(term, origin, passages[i])
  {
    if passages == [] then []
    else Tag(term, origin, passages[..|passages| - 1]) + [Candidate(term, origin, passages[|passages| - 1])]
  }

  /** The candidates of one term: its semantic hits, then its lexical hits. */
  function TermCandidates(store: Store, term: string): (cs: seq<Candidate>)
    ensures |cs| <= 2 * ResultsPerTerm
  {
    Tag(term, Semantic, SemanticHits(store, term)) + Tag(term, Lexical, LexicalHits(store, term))
  }

  /** At most ten candidates per term, all labelled with it; no semantic hit
      comes after a lexical one; only the first five can be semantic and all
      but the last five are semantic, so each search contributes at most
      five. */
  lemma TermCandidatesShape(store: Store, term: string)
    ensures var cs := TermCandidates(store, term);
      && |cs| <= 2 * ResultsPerTerm
      && (forall i :: 0 <= i < |cs| ==> cs[i].term == term)
      && (forall i, j :: 0 <= i < j < |cs| && cs[j].origin == Semantic ==> cs[i].origin == Semantic)
      && (forall i :: ResultsPerTerm <= i < |cs| ==> cs[i].origin == Lexical)
      && (forall i :: 0 <= i < |cs| - ResultsPerTerm ==> cs[i].origin == Semantic)
  {
  }

  /** All candidates, term after term in input order; each is labelled with
      one of the terms. */
  function Candidates(store: Store, terms: seq<string>): (cs: seq<Candidate>)
    ensures forall c :: c in cs ==> c.term in terms
  {
    if terms == [] then []
    else
      var n := |terms| - 1;
      var init := Candidates(store, terms[..n]);
      var last := TermCandidates(store, terms[n]);
      TermCandidatesShape(store, terms[n]);
      assert forall c :: c in last ==> c.term == terms[n];
      assert forall c :: c in init ==> c.term in terms by {
        forall c | c in init
          ensures c.term in terms
        {
          var k :| 0 <= k < n && terms[..n][k] == c.term;
          assert terms[k] == c.term;
        }
      }
      init + last
  }

  /** Terms are handled in input order: the candidates of a split list of
      terms are those of the first part followed by those of the second. */
  lemma {:induction false} CandidatesAppend(store: Store, t1: seq<string>, t2: seq<string>)
    ensures Candidates(store, t1 + t2) == Candidates(store, t1) + Candidates(store, t2)
    decreases |t2|
  {
    if t2 == [] {
      assert t1 + t2 == t1;
    } else {
      var t2' := t2[..|t2| - 1];
      CandidatesAppend(store, t1, t2');
      DropLast(t1, t2);
      ConcatAssoc(Candidates(store, t1), Candidates(store, t2'), TermCandidates(store, t2[|t2| - 1]));
    }
  }

  /** Dropping the last element of a concatenation drops it from its second
      part. */
  lemma DropLast<T>(t1: seq<T>, t2: seq<T>)
    requires t2 != []
    ensures (t1 + t2)[..|t1 + t2| - 1] == t1 + t2[..|t2| - 1]
    ensures (t1 + t2)[|t1 + t2| - 1] == t2[|t2| - 1]
  {
  }

  /** Concatenation is associative (kept separate so that callers need not
      search for it). */
  lemma ConcatAssoc<T>(a: seq<T>, b: seq<T>, c: seq<T>)
    ensures a + b + c == a + (b + c)
  {
  }

  /* ---------------------------------------------------------------------- */
  /* Which candidates are accepted                                           */
  /* ---------------------------------------------------------------------- */

  /** The contents of the passages of `cs` (the source's `chunks_usados` when
      `cs` are the accepted candidates). */
  function Contents(cs: seq<Candidate>): (r: set<string>)
    ensures |r| <= |cs|
  {
    if cs == [] then {}
    else Contents(cs[..|cs| - 1]) + {cs[|cs| - 1].passage.content}
  }

  /** `Contents` holds the content of every candidate and nothing else. */
  lemma {:induction false} ContentsMembers(cs: seq<Candidate>)
    ensures forall x :: x in Contents(cs) <==> exists c :: c in cs && c.passage.content == x
  {
    if cs != [] {
      var init := cs[..|cs| - 1];
      ContentsMembers(init);
      assert forall c :: c in cs <==> c in init || c == cs[|cs| - 1];
    }
  }

  /** The URLs of the passages of `cs` (the source's `urls_usadas` when `cs`
      are the accepted candidates). */
  function Urls(cs: seq<Candidate>): (r: set<string>)
    ensures |r| <= |cs|
  {
    if cs == [] then {}
    else Urls(cs[..|cs| - 1]) + {cs[|cs| - 1].passage.url}
  }

  /** `Urls` holds the URL of every candidate and nothing else. */
  lemma {:induction false} UrlsMembers(cs: seq<Candidate>)
    ensures forall u :: u in Urls(cs) <==> exists c :: c in cs && c.passage.url == u
  {
    if cs != [] {
      var init := cs[..|cs| - 1];
      UrlsMembers(init);
      assert forall c :: c in cs <==> c in init || c == cs[|cs| - 1];
    }
  }

  /** `c` is accepted after `seen` were considered: its content is not the
      placeholder and no earlier candidate had the same content. */
  predicate IsFresh(seen: seq<Candidate>, c: Candidate, sentinel: string)
  {
    c.passage.content != sentinel && c.passage.content !in Contents(seen)
  }

  /** The accepted candidates, in the order they were considered: the first
      occurrence of every non-placeholder content. */
  function Accepted(cs: seq<Candidate>, sentinel: string): (accepted: seq<Candidate>)
    ensures |accepted| <= |cs|
  {
    if cs == [] then []
    else
      var seen := cs[..|cs| - 1];
      var c := cs[|cs| - 1];
      Accepted(seen, sentinel) + (if IsFresh(seen, c, sentinel) then [c] else [])
  }

  /** One more candidate: accepted and appended when fresh, otherwise nothing
      changes. */
  lemma AcceptedSnoc(cs: seq<Candidate>, c: Candidate, sentinel: string)
    ensures Accepted(cs + [c], sentinel) == if IsFresh(cs, c, sentinel) then Accepted(cs, sentinel) + [c] else Accepted(cs, sentinel)
  {
    assert (cs + [c])[..|cs|] == cs;
  }

  /** One more candidate adds its content and its URL. */
  lemma ContentsSnoc(cs: seq<Candidate>, c: Candidate)
    ensures Contents(cs + [c]) == Contents(cs) + {c.passage.content}
    ensures Urls(cs + [c]) == Urls(cs) + {c.passage.url}
  {
    assert (cs + [c])[..|cs|] == cs;
  }

  /** Only candidates are accepted, and never the placeholder. */
  lemma {:induction false} AcceptedAreCandidates(cs: seq<Candidate>, sentinel: string)
    ensures forall a :: a in Accepted(cs, sentinel) ==> a in cs && a.passage.content != sentinel
  {
    if cs != [] {
      var seen := cs[..|cs| - 1];
      AcceptedAreCandidates(seen, sentinel);
      assert forall a :: a in seen ==> a in cs;
    }
  }

  /** Every content seen, except the placeholder, is accepted: the contents of
      the accepted candidates are exactly the non-placeholder contents. */
  lemma {:induction false} AcceptedContents(cs: seq<Candidate>, sentinel: string)
    ensures Contents(Accepted(cs, sentinel)) == Contents(cs) - {sentinel}
  {
    if cs != [] {
      var seen := cs[..|cs| - 1];
      var c := cs[|cs| - 1];
      AcceptedContents(seen, sentinel);
      var x := c.passage.content;
      var before := Contents(seen);
      assert Contents(cs) == before + {x};
      if IsFresh(seen, c, sentinel) {
        var a := Accepted(seen, sentinel);
        assert Accepted(cs, sentinel) == a + [c];
        ContentsSnoc(a, c);
        SetStep(before, x, sentinel);
      } else {
        assert Accepted(cs, sentinel) == Accepted(seen, sentinel);
        SetStep(before, x, sentinel);
      }
    }
  }

  /** Adding a content and removing the sentinel commute when the content is
      not the sentinel; adding one already present or the sentinel changes
      nothing once the sentinel is removed. */
  lemma SetStep(before: set<string>, x: string, sentinel: string)
    ensures x != sentinel ==> (before - {sentinel}) + {x} == (before + {x}) - {sentinel}
    ensures x == sentinel || x in before ==> before - {sentinel} == (before + {x}) - {sentinel}
  {
  }

  /** No content is accepted twice: each accepted content labels exactly one
      block. */
  lemma {:induction false} AcceptedDistinct(cs: seq<Candidate>, sentinel: string)
    ensures forall i, j :: 0 <= i < j < |Accepted(cs, sentinel)| ==>
      Accepted(cs, sentinel)[i].passage.content != Accepted(cs, sentinel)[j].passage.content
  {
    if cs != [] {
      var seen := cs[..|cs| - 1];
      var c := cs[|cs| - 1];
      AcceptedDistinct(seen, sentinel);
      AcceptedAreCandidates(seen, sentinel);
      ContentsMembers(seen);
      var a := Accepted(seen, sentinel);
      if IsFresh(seen, c, sentinel) {
        forall i | 0 <= i < |a|
          ensures a[i].passage.content != c.passage.content
        {
          assert a[i] in seen;
        }
      }
    }
  }

  /** Considering more candidates only appends to what was accepted, so the
      passages of earlier terms stay first. */
  lemma {:induction false} AcceptedPrefix(a: seq<Candidate>, b: seq<Candidate>, sentinel: string)
    ensures Accepted(a, sentinel) <= Accepted(a + b, sentinel)
    decreases |b|
  {
    if b == [] {
      assert a + b == a;
    } else {
      var b' := b[..|b| - 1];
      AcceptedPrefix(a, b', sentinel);
      assert (a + b)[..|a + b| - 1] == a + b';
    }
  }

  /** Every returned URL is that of an accepted, non-placeholder candidate. */
  lemma UrlsOfAccepted(cs: seq<Candidate>, sentinel: string)
    ensures forall u :: u in Urls(Accepted(cs, sentinel)) ==>
      exists c :: c in cs && c.passage.content != sentinel && c.passage.url == u
  {
    AcceptedAreCandidates(cs, sentinel);
    UrlsMembers(Accepted(cs, sentinel));
  }

  /* ---------------------------------------------------------------------- */
  /* The context text                                                         */
  /* ---------------------------------------------------------------------- */

  const BlockOpen: string := "--- Fragmento (sobre '"
  const BlockFrom: string := "') de: "
  const BlockContent: string := " ---\nContenido: "
  const BlockClose: string := "\n\n"

  /** The labelled block of one accepted passage. */
  function Block(c: Candidate): (b: string)
    ensures |b| > |c.passage.content|
  {
    BlockOpen + c.term + BlockFrom + c.passage.url + BlockContent + c.passage.content + BlockClose
  }

  /** The blocks of the accepted passages, in acceptance order. */
  function Render(accepted: seq<Candidate>): (text: string)
    ensures |text| >= |accepted|
  {
    if accepted == [] then ""
    else Render(accepted[..|accepted| - 1]) + Block(accepted[|accepted| - 1])
  }

  /** The context is empty exactly when nothing was accepted. */
  lemma RenderEmpty(accepted: seq<Candidate>)
    ensures Render(accepted) == "" <==> accepted == []
  {
    if accepted != [] {
      assert |Render(accepted)| >= |Block(accepted[|accepted| - 1])| > 0;
    }
  }

  /** The context is the concatenation of the blocks. */
  lemma {:induction false} RenderAppend(a: seq<Candidate>, b: seq<Candidate>)
    ensures Render(a + b) == Render(a) + Render(b)
    decreases |b|
  {
    if b == [] {
      assert a + b == a;
    } else {
      var b' := b[..|b| - 1];
      RenderAppend(a, b');
      DropLast(a, b);
      ConcatAssoc(Render(a), Render(b'), Block(b[|b| - 1]));
    }
  }

  /* ---------------------------------------------------------------------- */
  /* The procedure                                                            */
  /* ---------------------------------------------------------------------- */

  /** `realizar_busqueda_avanzada(terminos, collection, df)`: returns the
      context built from the accepted passages and the sorted list of their
      URLs. */
  method AdvancedSearch(terms: seq<string>, store: Store) returns (context: string, urls: seq<string>)
    ensures context == Render(Accepted(Candidates(store, terms), Placeholder))
    ensures Ordering.StrictlyAscending(urls)
    ensures forall u :: u in urls <==> u in Urls(Accepted(Candidates(store, terms), Placeholder))
    ensures |urls| == |Urls(Accepted(Candidates(store, terms), Placeholder))|
  {
    context := "";
    var used: set<string> := {};
    var urlSet: set<string> := {};
    ghost var seen: seq<Candidate> := [];

    for t := 0 to |terms|
      invariant seen == Candidates(store, terms[..t])
      invariant Tracks(seen, context, used, urlSet, Placeholder)
    {
      var term := terms[t];
      var semantic := SemanticHits(store, term);
      var lexical := LexicalHits(store, term);
      ghost var before := seen;

      for i := 0 to |semantic|
        invariant seen == before + Tag(term, Semantic, semantic[..i])
        invariant Tracks(seen, context, used, urlSet, Placeholder)
      {
        var passage := semantic[i];
        var candidate := Candidate(term, Semantic, passage);
        Consider(seen, candidate, context, used, urlSet, Placeholder);
        if passage.content != Placeholder && passage.content !in used {
          context := context + Block(candidate);
          used := used + {passage.content};
          urlSet := urlSet + {passage.url};
        }
        TagSnoc(before, term, Semantic, semantic, i);
        seen := seen + [candidate];
      }
      assert semantic[..|semantic|] == semantic;
      ghost var middle := seen;
      assert lexical[..0] == [];

      for j := 0 to |lexical|
        invariant seen == middle + Tag(term, Lexical, lexical[..j])
        invariant Tracks(seen, context, used, urlSet, Placeholder)
      {
        var row := lexical[j];
        var candidate := Candidate(term, Lexical, row);
        Consider(seen, candidate, context, used, urlSet, Placeholder);
        if row.content !in used && row.content != Placeholder {
          context := context + Block(candidate);
          used := used + {row.content};
          urlSet := urlSet + {row.url};
        }
        TagSnoc(middle, term, Lexical, lexical, j);
        seen := seen + [candidate];
      }
      assert lexical[..|lexical|] == lexical;
      CandidatesSnoc(store, terms, t);
    }
    assert terms[..|terms|] == terms;
    urls := Ordering.SortedList(urlSet);
  }

  /** Considering hit `i` extends the candidates seen so far by one. */
  lemma TagSnoc(before: seq<Candidate>, term: string, origin: Origin, ps: seq<Passage>, i: nat)
    requires i < |ps|
    ensures before + Tag(term, origin, ps[..i + 1])
         == before + Tag(term, origin, ps[..i]) + [Candidate(term, origin, ps[i])]
  {
    assert ps[..i + 1][..i] == ps[..i];
    var x := Tag(term, origin, ps[..i]);
    assert before + (x + [Candidate(term, origin, ps[i])]) == before + x + [Candidate(term, origin, ps[i])];
  }

  /** Finishing term `t` means all candidates of the first `t + 1` terms were
      seen. */
  lemma CandidatesSnoc(store: Store, terms: seq<string>, t: nat)
    requires t < |terms|
    ensures Candidates(store, terms[..t + 1])
         == Candidates(store, terms[..t])
            + Tag(terms[t], Semantic, SemanticHits(store, terms[t]))
            + Tag(terms[t], Lexical, LexicalHits(store, terms[t]))
  {
    assert terms[..t + 1][..t] == terms[..t];
    var c := Candidates(store, terms[..t]);
    var x := Tag(terms[t], Semantic, SemanticHits(store, terms[t]));
    var y := Tag(terms[t], Lexical, LexicalHits(store, terms[t]));
    assert c + (x + y) == c + x + y;
  }

  /** `context`, `used` and `urlSet` are what the source holds in
      `contexto_final`, `chunks_usados` and `urls_usadas` once the candidates
      `seen` have been considered. */
  ghost predicate Tracks(seen: seq<Candidate>, context: string, used: set<string>, urlSet: set<string>, sentinel: string)
  {
    && context == Render(Accepted(seen, sentinel))
    && used == Contents(Accepted(seen, sentinel))
    && urlSet == Urls(Accepted(seen, sentinel))
  }

  /** One step of either inner loop: the source's test (not the placeholder,
      not yet used) accepts exactly the fresh candidates, and the updates it
      then makes keep the three variables in step with the accepted list. A
      candidate that is not accepted leaves all three unchanged. */
  lemma Consider(seen: seq<Candidate>, c: Candidate, context: string, used: set<string>, urlSet: set<string>, sentinel: string)
    requires Tracks(seen, context, used, urlSet, sentinel)
    ensures (c.passage.content != sentinel && c.passage.content !in used) == IsFresh(seen, c, sentinel)
    ensures IsFresh(seen, c, sentinel) ==>
      Tracks(seen + [c], context + Block(c), used + {c.passage.content}, urlSet + {c.passage.url}, sentinel)
    ensures !IsFresh(seen, c, sentinel) ==> Tracks(seen + [c], context, used, urlSet, sentinel)
  {
    AcceptedContents(seen, sentinel);
    AcceptedSnoc(seen, c, sentinel);
    var a := Accepted(seen, sentinel);
    ContentsSnoc(a, c);
    assert (a + [c])[..|a|] == a;
  }
}
