/**
 A hand-made inverted index: split every document into words with their
 positions, group the positions by word and document, and answer queries from
 the groups alone.

 What counts as a letter or digit, and how letters are lowered, is the
 database's locale; everything here holds for any locale.
 */
module InvertedIndex {
  import opened Sorting
  import opened Splitting
  import opened Wrappers

  datatype Locale = Locale(lower: char -> char, alnum: char -> bool)

  datatype Document = Document(id: int, content: string)

  /** One output row of the tokenizer: WITH ORDINALITY numbers tokens from 1. */
  datatype Token = Token(doc: int, term: string, pos: int)

  datatype Posting = Posting(term: string, doc: int, positions: seq<int>)

  // ---------------------------------------------------------------- tokens

  function Lower(loc: Locale, s: string): string {
    seq(|s|, i requires 0 <= i < |s| => loc.lower(s[i]))
  }

  function Pieces(loc: Locale, content: string): seq<string> {
    Split(loc.alnum, Lower(loc, content))
  }

  function Number(doc: int, pieces: seq<string>, from: nat): seq<Token> {
    if pieces == [] then []
    else (if pieces[0] == "" then [] else [Token(doc, pieces[0], from)]) + Number(doc, pieces[1..], from + 1)
  }

  function Tokens(loc: Locale, docs: seq<Document>): seq<Token> {
    if docs == [] then []
    else Number(docs[0].id, Pieces(loc, docs[0].content), 1) + Tokens(loc, docs[1..])
  }

  // ---------------------------------------------------------------- the index

  /** The positions of one group, in the order the rows happen to come. */
  function PositionsOf(tokens: seq<Token>, term: string, doc: int): seq<int> {
    if tokens == [] then []
    else (if tokens[0].term == term && tokens[0].doc == doc then [tokens[0].pos] else [])
         + PositionsOf(tokens[1..], term, doc)
  }

  /** The document ids are a primary key. */
  predicate DistinctIds(docs: seq<Document>) {
    forall i, j :: 0 <= i < j < |docs| ==> docs[i].id != docs[j].id
  }

  /** (term, document) is a primary key. */
  predicate DistinctKeys(table: seq<Posting>) {
    forall i, j :: 0 <= i < j < |table| ==> table[i].term != table[j].term || table[i].doc != table[j].doc
  }

  predicate HasKey(table: seq<Posting>, term: string, doc: int) {
    exists i :: 0 <= i < |table| && table[i].term == term && table[i].doc == doc
  }

  /** A row has its group's positions, sorted, and there are no empty groups. */
  predicate RowOk(all: seq<Token>, r: Posting) {
    && PositionsOf(all, r.term, r.doc) != []
    && r.positions == OrderBy(PositionsOf(all, r.term, r.doc))
  }

  /** GROUP BY term, document with array_agg(position ORDER BY position), in any row order. */
  ghost predicate Groups(tokens: seq<Token>, table: seq<Posting>) {
    && DistinctKeys(table)
    && (forall i :: 0 <= i < |table| ==> RowOk(tokens, table[i]))
    && (forall k :: 0 <= k < |tokens| ==> HasKey(table, tokens[k].term, tokens[k].doc))
  }

  ghost predicate IsIndex(loc: Locale, docs: seq<Document>, table: seq<Posting>) {
    DistinctIds(docs) && Groups(Tokens(loc, docs), table)
  }

  /** One way to compute the groups: a row for every token whose key is not there yet. */
  function Collect(all: seq<Token>, tokens: seq<Token>): (table: seq<Posting>) {
    if tokens == [] then []
    else
      var table := Collect(all, tokens[1..]);
      var t := tokens[0];
      if HasKey(table, t.term, t.doc) then table
      else [Posting(t.term, t.doc, OrderBy(PositionsOf(all, t.term, t.doc)))] + table
  }

  function Build(loc: Locale, docs: seq<Document>): seq<Posting> {
    Collect(Tokens(loc, docs), Tokens(loc, docs))
  }

  // ---------------------------------------------------------------- the queries

  function DocsOf(table: seq<Posting>, term: string): seq<int> {
    if table == [] then []
    else (if table[0].term == term then [table[0].doc] else []) + DocsOf(table[1..], term)
  }

  /** SELECT array_agg(document_id ORDER BY document_id) ... WHERE term = ... */
  function Lookup(table: seq<Posting>, term: string): seq<int> {
    OrderBy(DocsOf(table, term))
  }

  /** The right-hand rows that join with one left-hand row. */
  function Partners(table: seq<Posting>, doc: int, term: string): seq<int> {
    if table == [] then []
    else (if table[0].doc == doc && table[0].term == term then [doc] else []) + Partners(table[1..], doc, term)
  }

  function Join(left: seq<Posting>, right: seq<Posting>, a: string, b: string): seq<int> {
    if left == [] then []
    else (if left[0].term == a then Partners(right, left[0].doc, b) else []) + Join(left[1..], right, a, b)
  }

  /** The self-join USING (document_id) for two terms. */
  function LookupBoth(table: seq<Posting>, a: string, b: string): seq<int> {
    OrderBy(Join(table, table, a, b))
  }

  // ---------------------------------------------------------------- scanning instead

  /** The text from `i` to `j`, lowered, is the word `t`, and there is no letter or digit next to it. */
  predicate StandsAt(loc: Locale, content: string, t: string, i: int, j: int) {
    && 0 <= i < j <= |content| && |t| == j - i
    && (forall q :: 0 <= q < |t| ==> loc.lower(content[i + q]) == t[q] && loc.alnum(t[q]))
    && (i == 0 || !loc.alnum(loc.lower(content[i - 1])))
    && (j == |content| || !loc.alnum(loc.lower(content[j])))
  }

  ghost predicate Stands(loc: Locale, content: string, t: string) {
    exists i, j :: StandsAt(loc, content, t, i, j)
  }

  /** Document number `d` is in the set and has the word, after lowering. */
  ghost predicate Contains(loc: Locale, docs: seq<Document>, d: int, t: string) {
    exists k :: 0 <= k < |docs| && docs[k].id == d && Stands(loc, docs[k].content, t)
  }

  // ---------------------------------------------------------------- positions

  /** The positions of a term in a list of pieces, in order. */
  function PositionsIn(pieces: seq<string>, t: string, from: nat): seq<int> {
    if pieces == [] then []
    else (if pieces[0] == t then [from] else []) + PositionsIn(pieces[1..], t, from + 1)
  }

  lemma {:induction false} PositionsInIncrease(pieces: seq<string>, t: string, from: nat)
    ensures Increasing(PositionsIn(pieces, t, from))
    ensures forall i :: 0 <= i < |PositionsIn(pieces, t, from)| ==> PositionsIn(pieces, t, from)[i] >= from
  {
    if pieces != [] {
      PositionsInIncrease(pieces[1..], t, from + 1);
    }
  }

  lemma {:induction false} InPositionsIn(pieces: seq<string>, t: string, from: nat, p: int)
    ensures p in PositionsIn(pieces, t, from) <==> from <= p < from + |pieces| && pieces[p - from] == t
  {
    if pieces != [] {
      var rest := PositionsIn(pieces[1..], t, from + 1);
      InPositionsIn(pieces[1..], t, from + 1, p);
      assert p in PositionsIn(pieces, t, from) <==> (p == from && pieces[0] == t) || p in rest;
    }
  }

  lemma PositionsInAre(pieces: seq<string>, t: string, from: nat)
    ensures Increasing(PositionsIn(pieces, t, from))
    ensures forall p :: p in PositionsIn(pieces, t, from) <==> from <= p < from + |pieces| && pieces[p - from] == t
  {
    PositionsInIncrease(pieces, t, from);
    forall p ensures p in PositionsIn(pieces, t, from) <==> from <= p < from + |pieces| && pieces[p - from] == t {
      InPositionsIn(pieces, t, from, p);
    }
  }

  lemma {:induction false} PositionsOfAppend(x: seq<Token>, y: seq<Token>, t: string, d: int)
    ensures PositionsOf(x + y, t, d) == PositionsOf(x, t, d) + PositionsOf(y, t, d)
  {
    if x == [] {
      assert x + y == y;
    } else {
      assert (x + y)[1..] == x[1..] + y;
      PositionsOfAppend(x[1..], y, t, d);
    }
  }

  lemma {:induction false} PositionsOfNumber(doc: int, pieces: seq<string>, from: nat, t: string, d: int)
    ensures PositionsOf(Number(doc, pieces, from), t, d)
         == if doc == d && t != "" then PositionsIn(pieces, t, from) else []
  {
    if pieces != [] {
      var rest := Number(doc, pieces[1..], from + 1);
      PositionsOfNumber(doc, pieces[1..], from + 1, t, d);
      if pieces[0] != "" {
        var first := Token(doc, pieces[0], from);
        assert [first][1..] == [];
        assert PositionsOf([first], t, d) == if pieces[0] == t && doc == d then [from] else [];
        PositionsOfAppend([first], rest, t, d);
      } else {
        assert Number(doc, pieces, from) == rest;
      }
    }
  }

  lemma {:induction false} TokensAppend(loc: Locale, a: seq<Document>, b: seq<Document>)
    ensures Tokens(loc, a + b) == Tokens(loc, a) + Tokens(loc, b)
  {
    if a == [] {
      assert a + b == b;
    } else {
      assert (a + b)[1..] == a[1..] + b;
      TokensAppend(loc, a[1..], b);
    }
  }

  /** Each document contributes to the groups with its own id only. */
  lemma {:induction false} PositionsOfAbsent(loc: Locale, docs: seq<Document>, t: string, d: int)
    requires forall k :: 0 <= k < |docs| ==> docs[k].id != d
    ensures PositionsOf(Tokens(loc, docs), t, d) == []
  {
    if docs != [] {
      var pieces := Pieces(loc, docs[0].content);
      PositionsOfAbsent(loc, docs[1..], t, d);
      PositionsOfNumber(docs[0].id, pieces, 1, t, d);
      PositionsOfAppend(Number(docs[0].id, pieces, 1), Tokens(loc, docs[1..]), t, d);
    }
  }

  lemma OnePart(x: seq<Token>, y: seq<Token>, z: seq<Token>, t: string, d: int)
    requires PositionsOf(x, t, d) == [] && PositionsOf(z, t, d) == []
    ensures PositionsOf(x + (y + z), t, d) == PositionsOf(y, t, d)
  {
    PositionsOfAppend(x, y + z, t, d);
    PositionsOfAppend(y, z, t, d);
  }

  lemma TokensAround(loc: Locale, docs: seq<Document>, k: nat)
    requires k < |docs|
    ensures
      var middle := Number(docs[k].id, Pieces(loc, docs[k].content), 1);
      Tokens(loc, docs) == Tokens(loc, docs[..k]) + (middle + Tokens(loc, docs[k + 1..]))
  {
    assert docs == docs[..k] + docs[k..] && docs[k..][1..] == docs[k + 1..];
    TokensAppend(loc, docs[..k], docs[k..]);
  }

  /** A group's positions are those of the term in the one document with that id. */
  lemma {:induction false} PositionsOfDocument(loc: Locale, docs: seq<Document>, k: nat, t: string)
    requires DistinctIds(docs) && k < |docs|
    ensures PositionsOf(Tokens(loc, docs), t, docs[k].id)
         == if t == "" then [] else PositionsIn(Pieces(loc, docs[k].content), t, 1)
  {
    var d, pieces := docs[k].id, Pieces(loc, docs[k].content);
    TokensAround(loc, docs, k);
    PositionsOfAbsent(loc, docs[..k], t, d);
    PositionsOfAbsent(loc, docs[k + 1..], t, d);
    OnePart(Tokens(loc, docs[..k]), Number(d, pieces, 1), Tokens(loc, docs[k + 1..]), t, d);
    PositionsOfNumber(d, pieces, 1, t, d);
  }

  /** Key by key, a token is there exactly when the group is not empty. */
  lemma {:induction false} KeyOfToken(tokens: seq<Token>, t: string, d: int)
    ensures PositionsOf(tokens, t, d) != [] <==> exists k :: 0 <= k < |tokens| && tokens[k].term == t && tokens[k].doc == d
  {
    if tokens != [] {
      KeyOfToken(tokens[1..], t, d);
      if PositionsOf(tokens[1..], t, d) != [] {
        var k :| 0 <= k < |tokens[1..]| && tokens[1..][k].term == t && tokens[1..][k].doc == d;
        assert tokens[k + 1] == tokens[1..][k];
      }
      if k :| 0 <= k < |tokens| && tokens[k].term == t && tokens[k].doc == d {
        if k > 0 {
          assert tokens[k] == tokens[1..][k - 1];
        }
      }
    }
  }

  lemma RowOfToken(all: seq<Token>, t: Token)
    requires t in all
    ensures RowOk(all, Posting(t.term, t.doc, OrderBy(PositionsOf(all, t.term, t.doc))))
  {
    KeyOfToken(all, t.term, t.doc);
  }

  lemma {:induction false} CollectRow(all: seq<Token>, tokens: seq<Token>, i: nat)
    requires (forall k :: 0 <= k < |tokens| ==> tokens[k] in all) && i < |Collect(all, tokens)|
    ensures RowOk(all, Collect(all, tokens)[i])
  {
    var rest, t := Collect(all, tokens[1..]), tokens[0];
    if HasKey(rest, t.term, t.doc) {
      CollectRow(all, tokens[1..], i);
    } else if i > 0 {
      CollectRow(all, tokens[1..], i - 1);
    } else {
      RowOfToken(all, t);
    }
  }

  lemma {:induction false} CollectDistinct(all: seq<Token>, tokens: seq<Token>)
    ensures DistinctKeys(Collect(all, tokens))
  {
    if tokens != [] {
      CollectDistinct(all, tokens[1..]);
    }
  }

  lemma CollectFirst(all: seq<Token>, tokens: seq<Token>)
    requires tokens != []
    ensures HasKey(Collect(all, tokens), tokens[0].term, tokens[0].doc)
    ensures forall t, d :: HasKey(Collect(all, tokens[1..]), t, d) ==> HasKey(Collect(all, tokens), t, d)
  {
    var rest, table, t := Collect(all, tokens[1..]), Collect(all, tokens), tokens[0];
    if !HasKey(rest, t.term, t.doc) {
      assert table[0].term == t.term && table[0].doc == t.doc;
      assert table[1..] == rest;
      forall t, d {
        HasKeyFirst(table, t, d);
      }
    }
  }

  lemma {:induction false} CollectCovers(all: seq<Token>, tokens: seq<Token>, k: nat)
    requires k < |tokens|
    ensures HasKey(Collect(all, tokens), tokens[k].term, tokens[k].doc)
  {
    CollectFirst(all, tokens);
    if k > 0 {
      CollectCovers(all, tokens[1..], k - 1);
    }
  }

  /** The groups can be computed. */
  lemma {:induction false} BuildIsIndex(loc: Locale, docs: seq<Document>)
    requires DistinctIds(docs)
    ensures IsIndex(loc, docs, Build(loc, docs))
  {
    var tokens := Tokens(loc, docs);
    CollectDistinct(tokens, tokens);
    forall i | 0 <= i < |Build(loc, docs)| ensures RowOk(tokens, Build(loc, docs)[i]) {
      CollectRow(tokens, tokens, i);
    }
    forall k | 0 <= k < |tokens| ensures HasKey(Build(loc, docs), tokens[k].term, tokens[k].doc) {
      CollectCovers(tokens, tokens, k);
    }
  }

  // ---------------------------------------------------------------- queries agree with scanning

  /** A posting is there exactly for the documents that have the word. */
  lemma {:induction false} PostingIffContains(loc: Locale, docs: seq<Document>, table: seq<Posting>, t: string, d: int)
    requires IsIndex(loc, docs, table)
    ensures HasKey(table, t, d) <==> Contains(loc, docs, d, t)
  {
    KeyOfGroup(Tokens(loc, docs), table, t, d);
    if k :| 0 <= k < |docs| && docs[k].id == d {
      DocumentHasTerm(loc, docs, k, t);
    } else {
      PositionsOfAbsent(loc, docs, t, d);
    }
  }

  /** There is a row for a key exactly when its group is not empty. */
  lemma KeyOfGroup(tokens: seq<Token>, table: seq<Posting>, t: string, d: int)
    requires Groups(tokens, table)
    ensures HasKey(table, t, d) <==> PositionsOf(tokens, t, d) != []
  {
    KeyOfToken(tokens, t, d);
    assert forall i :: 0 <= i < |table| && table[i].term == t && table[i].doc == d ==> RowOk(tokens, table[i]);
  }

  lemma PositionsInNonEmpty(pieces: seq<string>, t: string)
    ensures PositionsIn(pieces, t, 1) != [] <==> t in pieces
  {
    PositionsInAre(pieces, t, 1);
    var ps := PositionsIn(pieces, t, 1);
    if ps != [] {
      assert ps[0] in ps;
    }
    if t in pieces {
      var q :| 0 <= q < |pieces| && pieces[q] == t;
      assert q + 1 in ps;
    }
  }

  lemma StandsAtIff(loc: Locale, content: string, t: string, i: int, j: int)
    ensures StandsAt(loc, content, t, i, j) <==> OccursAt(loc.alnum, Lower(loc, content), t, i, j)
  {
    var s := Lower(loc, content);
    if StandsAt(loc, content, t, i, j) {
      assert s[i..j] == t;
      forall k | i <= k < j ensures loc.alnum(s[k]) {
        assert s[k] == t[k - i];
      }
    }
    if OccursAt(loc.alnum, s, t, i, j) {
      forall q | 0 <= q < |t| ensures loc.lower(content[i + q]) == t[q] && loc.alnum(t[q]) {
        assert t[q] == s[i..j][q] == s[i + q];
      }
    }
  }

  lemma StandsIff(loc: Locale, content: string, t: string)
    ensures Stands(loc, content, t) <==> Occurs(loc.alnum, Lower(loc, content), t)
  {
    if i, j :| StandsAt(loc, content, t, i, j) {
      StandsAtIff(loc, content, t, i, j);
    }
    if i, j :| OccursAt(loc.alnum, Lower(loc, content), t, i, j) {
      StandsAtIff(loc, content, t, i, j);
    }
  }

  /** The pieces make up the text, lowered, with runs of separators between them. */
  ghost predicate MakeUp(loc: Locale, content: string, lowered: string, pieces: seq<string>, seps: seq<string>) {
    && |lowered| == |content| && (forall i :: 0 <= i < |content| ==> lowered[i] == loc.lower(content[i]))
    && Cuts(loc.alnum, lowered, pieces, seps)
  }

  /** The numbered pieces of a document are the only ones that make up its text. */
  lemma {:induction false} PiecesIff(loc: Locale, content: string, pieces: seq<string>)
    ensures pieces == Pieces(loc, content) <==> exists lowered, seps :: MakeUp(loc, content, lowered, pieces, seps)
  {
    SplitIff(loc.alnum, Lower(loc, content), pieces);
    if pieces == Pieces(loc, content) {
      var seps :| Cuts(loc.alnum, Lower(loc, content), pieces, seps);
      assert MakeUp(loc, content, Lower(loc, content), pieces, seps);
    }
    if lowered, seps :| MakeUp(loc, content, lowered, pieces, seps) {
      assert lowered == Lower(loc, content);
    }
  }

  lemma {:induction false} DocumentHasTerm(loc: Locale, docs: seq<Document>, k: nat, t: string)
    requires DistinctIds(docs) && k < |docs|
    ensures PositionsOf(Tokens(loc, docs), t, docs[k].id) != [] <==> Contains(loc, docs, docs[k].id, t)
  {
    PositionsOfDocument(loc, docs, k, t);
    PositionsInNonEmpty(Pieces(loc, docs[k].content), t);
    PieceIffOccurs(loc.alnum, Lower(loc, docs[k].content), t);
    StandsIff(loc, docs[k].content, t);
  }

  lemma {:induction false} DocsOfAre(table: seq<Posting>, t: string)
    requires DistinctKeys(table)
    ensures NoDuplicates(DocsOf(table, t))
    ensures forall d :: d in DocsOf(table, t) <==> HasKey(table, t, d)
  {
    if table != [] {
      DocsOfAre(table[1..], t);
      forall d ensures HasKey(table, t, d) <==> (table[0].term == t && table[0].doc == d) || HasKey(table[1..], t, d) {
        HasKeyFirst(table, t, d);
      }
      HasKeyFirst(table, t, table[0].doc);
      assert table[0].term == t ==> table[0].doc !in DocsOf(table[1..], t);
    }
  }

  lemma HasKeyFirst(table: seq<Posting>, t: string, d: int)
    requires table != []
    ensures HasKey(table, t, d) <==> (table[0].term == t && table[0].doc == d) || HasKey(table[1..], t, d)
    ensures DistinctKeys(table) && table[0].term == t && table[0].doc == d ==> !HasKey(table[1..], t, d)
  {
    if HasKey(table[1..], t, d) {
      var i :| 0 <= i < |table[1..]| && table[1..][i].term == t && table[1..][i].doc == d;
      assert table[i + 1] == table[1..][i];
    }
    if HasKey(table, t, d) {
      var i :| 0 <= i < |table| && table[i].term == t && table[i].doc == d;
      if i > 0 {
        assert table[1..][i - 1] == table[i];
      }
    }
  }

  /** The posting list of a term: the documents that have it as a word, each once, in order. */
  lemma {:induction false} LookupIsScan(loc: Locale, docs: seq<Document>, table: seq<Posting>, t: string)
    requires IsIndex(loc, docs, table)
    ensures Increasing(Lookup(table, t))
    ensures forall d :: d in Lookup(table, t) <==> Contains(loc, docs, d, t)
  {
    DocsOfAre(table, t);
    OrderByDistinct(DocsOf(table, t));
    forall d ensures d in Lookup(table, t) <==> Contains(loc, docs, d, t) {
      PostingIffContains(loc, docs, table, t, d);
    }
  }

  /** Because of the key, a left-hand row joins with one row at most. */
  lemma {:induction false} PartnersAre(table: seq<Posting>, d: int, t: string)
    requires DistinctKeys(table)
    ensures Partners(table, d, t) == if HasKey(table, t, d) then [d] else []
  {
    if table != [] {
      PartnersAre(table[1..], d, t);
      HasKeyFirst(table, t, d);
    }
  }

  lemma {:induction false} JoinIs(left: seq<Posting>, right: seq<Posting>, a: string, b: string)
    requires DistinctKeys(left) && DistinctKeys(right)
    ensures NoDuplicates(Join(left, right, a, b))
    ensures forall d :: d in Join(left, right, a, b) <==> HasKey(left, a, d) && HasKey(right, b, d)
  {
    if left != [] {
      JoinIs(left[1..], right, a, b);
      var d0, rest := left[0].doc, Join(left[1..], right, a, b);
      PartnersAre(right, d0, b);
      HasKeyFirst(left, a, d0);
      forall d ensures HasKey(left, a, d) <==> (left[0].term == a && d0 == d) || HasKey(left[1..], a, d) {
        HasKeyFirst(left, a, d);
      }
      assert left[0].term == a ==> d0 !in rest;
    }
  }

  /** An AND query: the documents that have both words, each once, in order. */
  lemma {:induction false} LookupBothIsScan(loc: Locale, docs: seq<Document>, table: seq<Posting>, a: string, b: string)
    requires IsIndex(loc, docs, table)
    ensures Increasing(LookupBoth(table, a, b))
    ensures forall d :: d in LookupBoth(table, a, b) <==> Contains(loc, docs, d, a) && Contains(loc, docs, d, b)
  {
    JoinIs(table, table, a, b);
    OrderByDistinct(Join(table, table, a, b));
    forall d ensures d in LookupBoth(table, a, b) <==> Contains(loc, docs, d, a) && Contains(loc, docs, d, b) {
      PostingIffContains(loc, docs, table, a, d);
      PostingIffContains(loc, docs, table, b, d);
    }
  }

  // ---------------------------------------------------------------- the text is in the index

  /** The words of a document in order. */
  function Words(pieces: seq<string>): seq<string> {
    if pieces == [] then [] else (if pieces[0] == "" then [] else [pieces[0]]) + Words(pieces[1..])
  }

  /** The first position a word can have: 2 when the document starts with a separator. */
  function Base(pieces: seq<string>): nat
    requires pieces != []
  {
    if pieces[0] == "" then 2 else 1
  }

  lemma {:induction false} WordsFromWord(pieces: seq<string>)
    requires forall k :: 0 <= k < |pieces| - 1 ==> pieces[k] != ""
    ensures Words(pieces) == if pieces != [] && pieces[|pieces| - 1] == "" then pieces[..|pieces| - 1] else pieces
  {
    if pieces != [] {
      var rest := pieces[1..];
      WordsFromWord(rest);
      assert pieces == [pieces[0]] + rest;
    }
  }

  /** The words take up consecutive positions from the first one on. */
  lemma {:induction false} WordsAreConsecutive(pieces: seq<string>, p: int)
    requires pieces != []
    requires forall k :: 0 < k < |pieces| - 1 ==> pieces[k] != ""
    ensures (1 <= p <= |pieces| && pieces[p - 1] != "") <==> Base(pieces) <= p < Base(pieces) + |Words(pieces)|
    ensures Base(pieces) <= p < Base(pieces) + |Words(pieces)| ==>
      1 <= p <= |pieces| && pieces[p - 1] == Words(pieces)[p - Base(pieces)]
  {
    if pieces[0] == "" {
      WordsFromWord(pieces[1..]);
      assert Words(pieces) == Words(pieces[1..]);
    } else {
      WordsFromWord(pieces);
    }
  }

  /** The word at position `p` is `t`. */
  predicate IsWord(pieces: seq<string>, p: int, t: string)
    requires pieces != []
  {
    Base(pieces) <= p < Base(pieces) + |Words(pieces)| && Words(pieces)[p - Base(pieces)] == t
  }

  /** A row lists exactly where its term stands among the pieces. */
  predicate RowFor(pieces: seq<string>, r: Posting) {
    r.term != "" && r.positions != [] && r.positions == PositionsIn(pieces, r.term, 1)
  }

  lemma RowOkFor(tokens: seq<Token>, r: Posting, pieces: seq<string>)
    requires RowOk(tokens, r)
    requires PositionsOf(tokens, r.term, r.doc) == if r.term == "" then [] else PositionsIn(pieces, r.term, 1)
    ensures RowFor(pieces, r)
  {
    var ps := PositionsIn(pieces, r.term, 1);
    PositionsInIncrease(pieces, r.term, 1);
    OrderByIncreasing(ps);
  }

  /** The table lists document `d`, which has these pieces: every row of it, and a row for every word. */
  ghost predicate Lists(table: seq<Posting>, d: int, pieces: seq<string>) {
    && DistinctKeys(table)
    && (forall i :: 0 <= i < |table| && table[i].doc == d ==> RowFor(pieces, table[i]))
    && (forall t :: t != "" && t in pieces ==> HasKey(table, t, d))
  }

  lemma {:induction false} GroupsList(tokens: seq<Token>, table: seq<Posting>, d: int, pieces: seq<string>)
    requires Groups(tokens, table)
    requires forall t :: PositionsOf(tokens, t, d) == if t == "" then [] else PositionsIn(pieces, t, 1)
    ensures Lists(table, d, pieces)
  {
    forall i | 0 <= i < |table| && table[i].doc == d ensures RowFor(pieces, table[i]) {
      RowOkFor(tokens, table[i], pieces);
    }
    forall t | t != "" && t in pieces ensures HasKey(table, t, d) {
      PositionsInNonEmpty(pieces, t);
      KeyOfGroup(tokens, table, t, d);
    }
  }

  lemma {:induction false} IndexLists(loc: Locale, docs: seq<Document>, table: seq<Posting>, k: nat)
    requires IsIndex(loc, docs, table) && k < |docs|
    ensures Lists(table, docs[k].id, Pieces(loc, docs[k].content))
  {
    var tokens, d, pieces := Tokens(loc, docs), docs[k].id, Pieces(loc, docs[k].content);
    forall t ensures PositionsOf(tokens, t, d) == if t == "" then [] else PositionsIn(pieces, t, 1) {
      PositionsOfDocument(loc, docs, k, t);
    }
    GroupsList(tokens, table, d, pieces);
  }

  /** The positions of a row are increasing, and are where the term stands in the document. */
  lemma {:induction false} RowPositions(loc: Locale, docs: seq<Document>, table: seq<Posting>, i: nat, k: nat)
    requires IsIndex(loc, docs, table) && i < |table| && k < |docs| && docs[k].id == table[i].doc
    ensures
      var pieces, r := Pieces(loc, docs[k].content), table[i];
      && Increasing(r.positions) && r.positions != [] && r.term != ""
      && forall p :: p in r.positions <==> 1 <= p <= |pieces| && pieces[p - 1] == r.term
  {
    IndexLists(loc, docs, table, k);
    RowForPositions(Pieces(loc, docs[k].content), table[i]);
  }

  lemma RowForPositions(pieces: seq<string>, r: Posting)
    requires RowFor(pieces, r)
    ensures Increasing(r.positions) && r.positions != [] && r.term != ""
    ensures forall p :: p in r.positions <==> 1 <= p <= |pieces| && pieces[p - 1] == r.term
  {
    PositionsInAre(pieces, r.term, 1);
  }

  /** Row `i` lists position `p` of document `d`. */
  predicate Listed(table: seq<Posting>, d: int, p: int, i: int) {
    0 <= i < |table| && table[i].doc == d && p in table[i].positions
  }

  /** Only the first and the last piece may be empty. */
  predicate Spaced(pieces: seq<string>) {
    pieces != [] && forall k :: 0 < k < |pieces| - 1 ==> pieces[k] != ""
  }

  lemma RowHasWord(pieces: seq<string>, r: Posting, p: int)
    requires RowFor(pieces, r) && Spaced(pieces)
    ensures p in r.positions <==> IsWord(pieces, p, r.term)
  {
    InPositionsIn(pieces, r.term, 1, p);
    WordsAreConsecutive(pieces, p);
  }

  lemma WordHasRow(table: seq<Posting>, d: int, pieces: seq<string>, p: int, t: string) returns (i: int)
    requires Lists(table, d, pieces) && Spaced(pieces) && IsWord(pieces, p, t)
    ensures Listed(table, d, p, i) && table[i].term == t
  {
    WordsAreConsecutive(pieces, p);
    assert t in pieces;
    i :| 0 <= i < |table| && table[i].term == t && table[i].doc == d;
    RowHasWord(pieces, table[i], p);
  }

  lemma OneRowEach(table: seq<Posting>, d: int, pieces: seq<string>, p: int, i: int, j: int)
    requires Lists(table, d, pieces) && Spaced(pieces) && Listed(table, d, p, i) && Listed(table, d, p, j)
    ensures i == j && IsWord(pieces, p, table[i].term)
  {
    RowHasWord(pieces, table[i], p);
    RowHasWord(pieces, table[j], p);
  }

  /**
   Document by document the position lists cut up one interval that starts at 1
   or 2: a position of the interval is in exactly one row, whose term is the word
   there, and other positions are in none.
   */
  lemma {:induction false} PositionsPartition(loc: Locale, docs: seq<Document>, table: seq<Posting>, k: nat, p: int)
    requires IsIndex(loc, docs, table) && k < |docs|
    ensures
      var pieces, d := Pieces(loc, docs[k].content), docs[k].id;
      && ((exists i :: Listed(table, d, p, i)) <==> Base(pieces) <= p < Base(pieces) + |Words(pieces)|)
      && (forall i, j :: Listed(table, d, p, i) && Listed(table, d, p, j) ==> i == j)
      && (forall i :: Listed(table, d, p, i) ==> IsWord(pieces, p, table[i].term))
  {
    IndexLists(loc, docs, table, k);
    RowsPartition(table, docs[k].id, Pieces(loc, docs[k].content), p);
  }

  lemma {:induction false} RowsPartition(table: seq<Posting>, d: int, pieces: seq<string>, p: int)
    requires Lists(table, d, pieces) && Spaced(pieces)
    ensures (exists i :: Listed(table, d, p, i)) <==> Base(pieces) <= p < Base(pieces) + |Words(pieces)|
    ensures forall i, j :: Listed(table, d, p, i) && Listed(table, d, p, j) ==> i == j
    ensures forall i :: Listed(table, d, p, i) ==> IsWord(pieces, p, table[i].term)
  {
    forall i, j | Listed(table, d, p, i) && Listed(table, d, p, j) ensures i == j && IsWord(pieces, p, table[i].term) {
      OneRowEach(table, d, pieces, p, i, j);
    }
    if Base(pieces) <= p < Base(pieces) + |Words(pieces)| {
      var i := WordHasRow(table, d, pieces, p, Words(pieces)[p - Base(pieces)]);
    }
  }

  /** The term that stands at a position of a document, according to the index. */
  function TermAt(table: seq<Posting>, d: int, p: int): Option<string> {
    if table == [] then None
    else if table[0].doc == d && p in table[0].positions then Some(table[0].term)
    else TermAt(table[1..], d, p)
  }

  function Largest(ps: seq<int>): (m: int)
    ensures forall p :: p in ps ==> p <= m
  {
    if ps == [] then 0
    else
      var m := Largest(ps[1..]);
      assert forall p :: p in ps ==> p == ps[0] || p in ps[1..];
      if ps[0] > m then ps[0] else m
  }

  function LargestIn(table: seq<Posting>): int {
    if table == [] then 0
    else var a, b := Largest(table[0].positions), LargestIn(table[1..]); if a > b then a else b
  }

  lemma {:induction false} TermAtBounded(table: seq<Posting>, d: int, p: int)
    requires TermAt(table, d, p).Some?
    ensures p <= LargestIn(table)
  {
    if !(table[0].doc == d && p in table[0].positions) {
      TermAtBounded(table[1..], d, p);
    }
  }

  /** Reads the terms at `p`, `p + 1`, ... until a position has none. */
  function ReadFrom(table: seq<Posting>, d: int, p: int): seq<string>
    decreases LargestIn(table) + 1 - p
  {
    match TermAt(table, d, p)
    case None => []
    case Some(t) =>
      TermAtBounded(table, d, p);
      [t] + ReadFrom(table, d, p + 1)
  }

  function Rebuild(table: seq<Posting>, d: int): seq<string> {
    ReadFrom(table, d, if TermAt(table, d, 1).Some? then 1 else 2)
  }

  lemma {:induction false} TermAtIs(table: seq<Posting>, d: int, p: int)
    ensures match TermAt(table, d, p)
      case None => forall i :: !Listed(table, d, p, i)
      case Some(t) => exists i :: Listed(table, d, p, i) && table[i].term == t
  {
    if table != [] {
      TermAtIs(table[1..], d, p);
      ListedFirst(table, d, p);
    }
  }

  lemma ListedFirst(table: seq<Posting>, d: int, p: int)
    requires table != []
    ensures Listed(table, d, p, 0) <==> table[0].doc == d && p in table[0].positions
    ensures forall i :: Listed(table[1..], d, p, i) ==> Listed(table, d, p, i + 1) && table[i + 1] == table[1..][i]
    ensures forall i :: Listed(table, d, p, i) ==> i == 0 || Listed(table[1..], d, p, i - 1)
  {
    forall i | Listed(table, d, p, i) ensures i == 0 || Listed(table[1..], d, p, i - 1) {
      if i > 0 {
        assert table[i] == table[1..][i - 1];
      }
    }
  }

  /** According to the index, document `d` has exactly these words from position `base` on. */
  ghost predicate Spells(table: seq<Posting>, d: int, base: nat, words: seq<string>) {
    forall p :: TermAt(table, d, p) == if base <= p < base + |words| then Some(words[p - base]) else None
  }

  /** The index knows the word at every position of a document. */
  lemma {:induction false} ListsSpells(table: seq<Posting>, d: int, pieces: seq<string>)
    requires Lists(table, d, pieces) && Spaced(pieces)
    ensures Spells(table, d, Base(pieces), Words(pieces))
  {
    forall p {
      TermAtIsWord(table, d, pieces, p);
    }
  }

  lemma {:induction false} TermAtIsWord(table: seq<Posting>, d: int, pieces: seq<string>, p: int)
    requires Lists(table, d, pieces) && Spaced(pieces)
    ensures
      var words, base := Words(pieces), Base(pieces);
      TermAt(table, d, p) == if base <= p < base + |words| then Some(words[p - base]) else None
  {
    TermAtIs(table, d, p);
    RowsPartition(table, d, pieces, p);
  }

  lemma {:induction false} ReadFromIs(table: seq<Posting>, d: int, base: nat, words: seq<string>, q: nat)
    requires Spells(table, d, base, words) && q <= |words|
    ensures ReadFrom(table, d, base + q) == words[q..]
    decreases |words| - q
  {
    assert TermAt(table, d, base + q) == if q < |words| then Some(words[q]) else None;
    if q < |words| {
      ReadFromIs(table, d, base, words, q + 1);
    }
  }

  lemma {:induction false} RebuildReads(table: seq<Posting>, d: int, base: nat, words: seq<string>)
    requires Spells(table, d, base, words) && (base == 1 || base == 2)
    ensures Rebuild(table, d) == words
  {
    ReadFromIs(table, d, base, words, 0);
    assert TermAt(table, d, 1) == if base == 1 && words != [] then Some(words[0]) else None;
    assert words == [] ==> TermAt(table, d, 2) == None;
  }

  /** Nothing is lost: the words of every document, in order, can be read back from the index alone. */
  lemma {:induction false} RebuildIsDocument(loc: Locale, docs: seq<Document>, table: seq<Posting>, k: nat)
    requires IsIndex(loc, docs, table) && k < |docs|
    ensures Rebuild(table, docs[k].id) == Words(Pieces(loc, docs[k].content))
  {
    var pieces := Pieces(loc, docs[k].content);
    IndexLists(loc, docs, table, k);
    ListsSpells(table, docs[k].id, pieces);
    RebuildReads(table, docs[k].id, Base(pieces), Words(pieces));
  }
}
