/**
 * The "top products" report: the message texts are split into words,
 * each word is reduced to its ASCII letters and lower-cased, short words,
 * stop words and numbers are dropped, and the remaining words are counted
 * and listed by count, most mentioned first, up to a limit.
 *
 * The query is declarative, so the model is a chain of functions, one per
 * step of the query, and a predicate saying which result lists the query
 * may return (rows with equal counts may come in any order).
 */
module TopProducts {
  import opened Wrappers

  /** One row of the report. */
  datatype ProductMention = ProductMention(product: string, mentions: nat)

  // ---- Step 1: regexp_split_to_table(message_text, '\s+') ----

  /** The characters `\s` matches: space, tab, newline, vertical tab, form feed, carriage return. */
  predicate IsWhitespace(c: char) {
    c == ' ' || ('\t' <= c <= '\r')
  }

  predicate NoWhitespace(s: string) {
    forall k :: 0 <= k < |s| ==> !IsWhitespace(s[k])
  }

  predicate AllWhitespace(s: string) {
    forall k :: 0 <= k < |s| ==> IsWhitespace(s[k])
  }

  /** The length of the longest prefix of `s` without whitespace. */
  function WordLength(s: string): (n: nat)
    ensures n <= |s| && NoWhitespace(s[..n])
    ensures n < |s| ==> IsWhitespace(s[n])
  {
    if s == [] || IsWhitespace(s[0]) then 0
    else
      var n := 1 + WordLength(s[1..]);
      assert s[..n] == [s[0]] + s[1..][..n - 1];
      n
  }

  /** The length of the longest prefix of `s` made of whitespace. */
  function GapLength(s: string): (n: nat)
    ensures n <= |s| && AllWhitespace(s[..n])
    ensures n < |s| ==> !IsWhitespace(s[n])
  {
    if s == [] || !IsWhitespace(s[0]) then 0
    else
      var n := 1 + GapLength(s[1..]);
      assert s[..n] == [s[0]] + s[1..][..n - 1];
      n
  }

  /**
   * The pieces between maximal runs of whitespace; a leading or trailing
   * run gives an empty first or last piece, and "" gives the single piece "".
   */
  function Split(s: string): seq<string>
    decreases |s|
  {
    var k := WordLength(s);
    if k == |s| then [s]
    else
      var t := s[k..];
      [s[..k]] + Split(t[GapLength(t)..])
  }

  /** The whitespace runs `Split` cuts at, in order: one fewer than the pieces. */
  function Gaps(s: string): seq<string>
    decreases |s|
  {
    var k := WordLength(s);
    if k == |s| then []
    else
      var t := s[k..];
      var n := GapLength(t);
      [t[..n]] + Gaps(t[n..])
  }

  /** The pieces `ts` with the separators `gs` put back between them. */
  function Interleave(ts: seq<string>, gs: seq<string>): string
    requires |ts| == |gs| + 1
    decreases |gs|
  {
    if gs == [] then ts[0] else ts[0] + (gs[0] + Interleave(ts[1..], gs[1..]))
  }

  /** What follows the first piece and the first run, when there is a run. */
  function Rest(s: string): string
    requires WordLength(s) < |s|
  {
    var t := s[WordLength(s)..];
    t[GapLength(t)..]
  }

  /** The first run is not empty, and the rest starts with a non-space. */
  lemma GapStep(s: string)
    requires WordLength(s) < |s|
    ensures GapLength(s[WordLength(s)..]) > 0
    ensures Rest(s) != [] ==> !IsWhitespace(Rest(s)[0])
  {
    var t := s[WordLength(s)..];
    assert t[0] == s[WordLength(s)];
    assert GapLength(t) == 1 + GapLength(t[1..]);
  }

  /** The first run is non-empty whitespace. */
  lemma FirstGap(s: string)
    requires WordLength(s) < |s|
    ensures Gaps(s) != [] && Gaps(s)[0] != [] && AllWhitespace(Gaps(s)[0])
  {
    GapStep(s);
    var t := s[WordLength(s)..];
    assert Gaps(s)[0] == t[..GapLength(t)];
  }

  /** A text is the pieces it is cut into at `k` and then `n` further on. */
  lemma ThreePieces(s: string, k: nat, n: nat)
    requires k + n <= |s|
    ensures s == s[..k] + (s[k..][..n] + s[k..][n..])
  {
    var t := s[k..];
    assert t[..n] + t[n..] == t;
    assert s[..k] + t == s;
  }

  /** One step of `Split` and `Gaps`: the first piece, the first run, then the rest. */
  lemma SplitStep(s: string)
    requires WordLength(s) < |s|
    ensures Split(s) == [s[..WordLength(s)]] + Split(Rest(s))
    ensures Gaps(s) == [s[WordLength(s)..][..GapLength(s[WordLength(s)..])]] + Gaps(Rest(s))
  {
  }

  /** The text is its pieces with the runs put back between them. */
  lemma {:induction false} SplitInterleave(s: string)
    ensures |Split(s)| == |Gaps(s)| + 1
    ensures Interleave(Split(s), Gaps(s)) == s
    decreases |s|
  {
    var k := WordLength(s);
    if k == |s| {
      assert s[..k] == s;
    } else {
      SplitStep(s);
      ThreePieces(s, k, GapLength(s[k..]));
      SplitInterleave(Rest(s));
      var ts := Split(s);
      var gs := Gaps(s);
      assert ts[1..] == Split(Rest(s)) && gs[1..] == Gaps(Rest(s));
    }
  }

  /** Every run `Split` cuts at is non-empty whitespace. */
  lemma {:induction false} GapsAreWhitespace(s: string)
    ensures forall i :: 0 <= i < |Gaps(s)| ==> Gaps(s)[i] != [] && AllWhitespace(Gaps(s)[i])
    decreases |s|
  {
    if WordLength(s) < |s| {
      SplitStep(s);
      FirstGap(s);
      GapsAreWhitespace(Rest(s));
      var gs := Gaps(s);
      forall i | 0 < i < |gs|
        ensures gs[i] != [] && AllWhitespace(gs[i])
      {
        assert gs[i] == Gaps(Rest(s))[i - 1];
      }
    }
  }

  /** Only the first and the last piece can be empty; the first is not when the text starts with a non-space. */
  lemma {:induction false} InnerPiecesNonEmpty(s: string)
    ensures forall i :: 0 < i < |Split(s)| - 1 ==> Split(s)[i] != []
    ensures s != [] && !IsWhitespace(s[0]) ==> Split(s)[0] != []
    decreases |s|
  {
    var k := WordLength(s);
    if k == |s| {
      assert s[..k] == s;
    } else {
      SplitStep(s);
      GapStep(s);
      var u := Rest(s);
      InnerPiecesNonEmpty(u);
      var ts := Split(s);
      forall i | 0 < i < |ts| - 1
        ensures ts[i] != []
      {
        assert ts[i] == Split(u)[i - 1];
      }
    }
  }

  /**
   * `Split` cuts at maximal whitespace runs: the text is its pieces with
   * the runs put back, every run is non-empty whitespace, every piece is
   * free of whitespace, and only the first and the last piece can be empty.
   */
  lemma SplitAtGaps(s: string)
    ensures |Split(s)| == |Gaps(s)| + 1
    ensures Interleave(Split(s), Gaps(s)) == s
    ensures forall i :: 0 <= i < |Gaps(s)| ==> Gaps(s)[i] != [] && AllWhitespace(Gaps(s)[i])
    ensures forall i :: 0 <= i < |Split(s)| ==> NoWhitespace(Split(s)[i])
    ensures forall i :: 0 < i < |Split(s)| - 1 ==> Split(s)[i] != []
  {
    SplitInterleave(s);
    GapsAreWhitespace(s);
    SplitWordsHaveNoWhitespace(s);
    InnerPiecesNonEmpty(s);
  }

  /** The characters of `s` that are not whitespace, in order. */
  function NonWhitespace(s: string): string {
    if s == [] then []
    else if IsWhitespace(s[|s| - 1]) then NonWhitespace(s[..|s| - 1])
    else NonWhitespace(s[..|s| - 1]) + [s[|s| - 1]]
  }

  function Concat(ts: seq<string>): string {
    if ts == [] then [] else ts[0] + Concat(ts[1..])
  }

  /** Every word of the split is free of whitespace. */
  lemma {:induction false} SplitWordsHaveNoWhitespace(s: string)
    ensures forall t :: t in Split(s) ==> NoWhitespace(t)
    decreases |s|
  {
    var k := WordLength(s);
    if k < |s| {
      var t := s[k..];
      SplitWordsHaveNoWhitespace(t[GapLength(t)..]);
    } else {
      assert s[..k] == s;
    }
  }

  lemma {:induction false} NonWhitespaceAppend(a: string, b: string)
    ensures NonWhitespace(a + b) == NonWhitespace(a) + NonWhitespace(b)
  {
    if b == [] {
      assert a + b == a;
    } else {
      var ab := a + b;
      assert ab[..|ab| - 1] == a + b[..|b| - 1];
      NonWhitespaceAppend(a, b[..|b| - 1]);
    }
  }

  lemma {:induction false} NonWhitespaceOfWord(s: string)
    requires NoWhitespace(s)
    ensures NonWhitespace(s) == s
  {
    if s != [] {
      var front := s[..|s| - 1];
      assert NoWhitespace(front) by {
        assert forall k :: 0 <= k < |front| ==> front[k] == s[k];
      }
      NonWhitespaceOfWord(front);
      assert s == front + [s[|s| - 1]];
    }
  }

  lemma {:induction false} NonWhitespaceOfGap(s: string)
    requires AllWhitespace(s)
    ensures NonWhitespace(s) == []
  {
    if s != [] {
      var front := s[..|s| - 1];
      assert AllWhitespace(front) by {
        assert forall k :: 0 <= k < |front| ==> front[k] == s[k];
      }
      NonWhitespaceOfGap(front);
    }
  }

  lemma ConcatCons(w: string, ts: seq<string>)
    ensures Concat([w] + ts) == w + Concat(ts)
  {
    assert ([w] + ts)[1..] == ts;
  }

  /** A word, then whitespace, then the rest: only the word and the rest's non-whitespace survive. */
  lemma NonWhitespacePieces(w: string, gap: string, u: string)
    requires NoWhitespace(w) && AllWhitespace(gap)
    ensures NonWhitespace(w + (gap + u)) == w + NonWhitespace(u)
  {
    calc {
      NonWhitespace(w + (gap + u));
      { NonWhitespaceAppend(w, gap + u); }
      NonWhitespace(w) + NonWhitespace(gap + u);
      { NonWhitespaceAppend(gap, u); }
      NonWhitespace(w) + (NonWhitespace(gap) + NonWhitespace(u));
      { NonWhitespaceOfWord(w); NonWhitespaceOfGap(gap); }
      w + ([] + NonWhitespace(u));
      { assert [] + NonWhitespace(u) == NonWhitespace(u); }
      w + NonWhitespace(u);
    }
  }

  /** Splitting loses nothing but whitespace: the words, joined, are the text without its whitespace. */
  lemma {:induction false} SplitKeepsText(s: string)
    ensures Concat(Split(s)) == NonWhitespace(s)
    decreases |s|
  {
    var k := WordLength(s);
    if k == |s| {
      assert s[..k] == s;
      NonWhitespaceOfWord(s);
      ConcatCons(s, []);
    } else {
      var t := s[k..];
      var n := GapLength(t);
      var u := t[n..];
      assert s == s[..k] + (t[..n] + u);
      calc {
        Concat(Split(s));
        Concat([s[..k]] + Split(u));
        { ConcatCons(s[..k], Split(u)); }
        s[..k] + Concat(Split(u));
        { SplitKeepsText(u); }
        s[..k] + NonWhitespace(u);
        { NonWhitespacePieces(s[..k], t[..n], u); }
        NonWhitespace(s);
      }
    }
  }

  /** The words of all messages, in order; a NULL text yields no rows. */
  function Tokens(texts: seq<Option<string>>): seq<string> {
    if texts == [] then []
    else
      Tokens(texts[..|texts| - 1]) +
        match texts[|texts| - 1]
        case None => []
        case Some(t) => Split(t)
  }

  // ---- Step 2: LOWER(regexp_replace(word, '[^a-zA-Z]', '', 'g')) ----

  predicate IsAsciiLetter(c: char) {
    ('a' <= c <= 'z') || ('A' <= c <= 'Z')
  }

  predicate IsLowerWord(s: string) {
    forall k :: 0 <= k < |s| ==> 'a' <= s[k] <= 'z'
  }

  /** The ASCII letters of `w`, in order. */
  function Letters(w: string): (r: string)
    ensures |r| <= |w|
    ensures forall k :: 0 <= k < |r| ==> IsAsciiLetter(r[k])
  {
    if w == [] then []
    else if IsAsciiLetter(w[|w| - 1]) then Letters(w[..|w| - 1]) + [w[|w| - 1]]
    else Letters(w[..|w| - 1])
  }

  /** `LOWER` on ASCII: an upper-case letter becomes the same letter in lower case; nothing else moves. */
  function Lower(c: char): (r: char)
    ensures 'A' <= c <= 'Z' ==> 'a' <= r <= 'z' && r as int - 'a' as int == c as int - 'A' as int
    ensures !('A' <= c <= 'Z') ==> r == c
    ensures IsAsciiLetter(r) <==> IsAsciiLetter(c)
  {
    if 'A' <= c <= 'Z' then (c as int - 'A' as int + 'a' as int) as char else c
  }

  function LowerAll(s: string): string {
    seq(|s|, i requires 0 <= i < |s| => Lower(s[i]))
  }

  /** The cleaned form of a word: lower-case ASCII letters only. */
  function Clean(w: string): (r: string)
    ensures |r| <= |w|
    ensures IsLowerWord(r)
  {
    LowerAll(Letters(w))
  }

  lemma {:induction false} LettersOfLetters(w: string)
    requires forall k :: 0 <= k < |w| ==> IsAsciiLetter(w[k])
    ensures Letters(w) == w
  {
    if w != [] {
      LettersOfLetters(w[..|w| - 1]);
    }
  }

  /** Removing non-letters from a concatenation removes them from each part. */
  lemma {:induction false} LettersAppend(a: string, b: string)
    ensures Letters(a + b) == Letters(a) + Letters(b)
  {
    if b == [] {
      assert a + b == a;
    } else {
      var ab := a + b;
      assert ab[..|ab| - 1] == a + b[..|b| - 1];
      assert ab[|ab| - 1] == b[|b| - 1];
      LettersAppend(a, b[..|b| - 1]);
    }
  }

  /**
   * Cleaning works character by character: a concatenation cleans to the
   * concatenation of the cleaned parts, and one character cleans to itself
   * lower-cased if it is an ASCII letter and to nothing otherwise.
   */
  lemma CleanAppend(a: string, b: string)
    ensures Clean(a + b) == Clean(a) + Clean(b)
  {
    LettersAppend(a, b);
    assert LowerAll(Letters(a) + Letters(b)) == LowerAll(Letters(a)) + LowerAll(Letters(b));
  }

  lemma CleanOfChar(c: char)
    ensures Clean([c]) == if IsAsciiLetter(c) then [Lower(c)] else []
  {
    assert [c][..0] == [];
  }

  /** Cleaning a cleaned word changes nothing. */
  lemma CleanIdempotent(w: string)
    ensures Clean(Clean(w)) == Clean(w)
  {
    var c := Clean(w);
    LettersOfLetters(c);
  }

  // ---- Step 3: the WHERE clause of filtered_words and of the final SELECT ----

  const StopWords: set<string> := {
    "the", "for", "and", "are", "with", "you", "this", "that",
    "from", "call", "have", "more", "free", "price", "delivery",
    "contact", "order", "telegram", "channel", "available",
    "monday", "tuesday", "wednesday", "thursday", "friday",
    "saturday", "sunday", "until", "adress", "school"
  }

  /** `cleaned_word ~ '^[0-9\.]+$'`. */
  predicate NumericOnly(w: string) {
    |w| > 0 && forall k :: 0 <= k < |w| ==> ('0' <= w[k] <= '9') || w[k] == '.'
  }

  predicate Passes(w: string) {
    |w| > 3 && w !in StopWords && !NumericOnly(w) && w != ""
  }

  /** A cleaned word is never a number: the third condition never removes anything. */
  lemma CleanedNeverNumeric(w: string)
    ensures !NumericOnly(Clean(w))
  {
    var c := Clean(w);
    if |c| > 0 {
      assert 'a' <= c[0] <= 'z';
    }
  }

  /** The cleaned words that pass the filter, in token order. */
  function Words(tokens: seq<string>): (r: seq<string>)
    ensures forall w :: w in r ==> Passes(w) && IsLowerWord(w)
  {
    if tokens == [] then []
    else
      var c := Clean(tokens[|tokens| - 1]);
      if Passes(c) then Words(tokens[..|tokens| - 1]) + [c] else Words(tokens[..|tokens| - 1])
  }

  // ---- Step 4: GROUP BY, COUNT(*), ORDER BY 2 DESC, LIMIT ----

  function Count(ws: seq<string>, w: string): nat {
    if ws == [] then 0
    else Count(ws[..|ws| - 1], w) + (if ws[|ws| - 1] == w then 1 else 0)
  }

  /** The distinct words of `ws`, in order of first occurrence: the groups. */
  function Distinct(ws: seq<string>): (d: seq<string>)
    ensures forall w :: w in d <==> w in ws
    ensures forall i, j :: 0 <= i < j < |d| ==> d[i] != d[j]
  {
    if ws == [] then []
    else
      var front := Distinct(ws[..|ws| - 1]);
      var w := ws[|ws| - 1];
      assert forall x :: x in ws <==> x in ws[..|ws| - 1] || x == w by {
        assert ws == ws[..|ws| - 1] + [w];
      }
      if w in front then front else front + [w]
  }

  /** One row per group, with its count. */
  function Tally(ws: seq<string>): seq<ProductMention> {
    var d := Distinct(ws);
    seq(|d|, i requires 0 <= i < |d| => ProductMention(d[i], Count(ws, d[i])))
  }

  predicate SortedByMentions(s: seq<ProductMention>) {
    forall i, j :: 0 <= i < j < |s| ==> s[i].mentions >= s[j].mentions
  }

  function InsertByMentions(p: ProductMention, s: seq<ProductMention>): (r: seq<ProductMention>)
    ensures multiset(r) == multiset(s) + multiset{p}
  {
    if s == [] then [p]
    else if p.mentions >= s[0].mentions then [p] + s
    else
      assert s == [s[0]] + s[1..];
      [s[0]] + InsertByMentions(p, s[1..])
  }

  predicate AtMost(s: seq<ProductMention>, bound: nat) {
    forall i :: 0 <= i < |s| ==> s[i].mentions <= bound
  }

  lemma {:induction false} InsertAtMost(p: ProductMention, s: seq<ProductMention>, bound: nat)
    requires AtMost(s, bound) && p.mentions <= bound
    ensures AtMost(InsertByMentions(p, s), bound)
  {
    if s != [] && p.mentions < s[0].mentions {
      InsertAtMost(p, s[1..], bound);
    }
  }

  lemma {:induction false} InsertKeepsSorted(p: ProductMention, s: seq<ProductMention>)
    requires SortedByMentions(s)
    ensures SortedByMentions(InsertByMentions(p, s))
  {
    if s != [] && p.mentions < s[0].mentions {
      var rest := InsertByMentions(p, s[1..]);
      InsertKeepsSorted(p, s[1..]);
      InsertAtMost(p, s[1..], s[0].mentions);
      var r := [s[0]] + rest;
      assert forall i :: 1 <= i < |r| ==> r[i] == rest[i - 1];
    }
  }

  /** `ORDER BY mentions DESC`: a sorted permutation of the groups. */
  function SortByMentions(s: seq<ProductMention>): (r: seq<ProductMention>)
    ensures SortedByMentions(r)
    ensures multiset(r) == multiset(s)
  {
    if s == [] then []
    else
      assert s == [s[0]] + s[1..];
      var rest := SortByMentions(s[1..]);
      InsertKeepsSorted(s[0], rest);
      InsertByMentions(s[0], rest)
  }

  function Min(a: int, b: int): int {
    if a <= b then a else b
  }

  /** The value `limit` takes when the caller gives none. */
  const DefaultLimit: int := 10

  /**
   * `get_top_products(limit)`: the rows in query order. A negative LIMIT is
   * an error of the database.
   */
  function GetTopProducts(texts: seq<Option<string>>, limit: int): Result<seq<ProductMention>, string> {
    if limit < 0 then Failure("LIMIT must not be negative")
    else
      Success(Top(Words(Tokens(texts)), limit))
  }

  // ---- What the query promises ----

  /** The number of tokens whose cleaned form is `w`. */
  function TokensCleanedTo(tokens: seq<string>, w: string): nat {
    |set i | 0 <= i < |tokens| && Clean(tokens[i]) == w|
  }

  /**
   * The lists the query may return for `limit`: `limit` rows, or one per
   * candidate word if there are fewer; distinct products, each with its
   * number of mentions; most mentioned first; and no word left out that is
   * mentioned more often than a word listed.
   */
  ghost predicate IsTopProducts(tokens: seq<string>, limit: nat, r: seq<ProductMention>) {
    var ws := Words(tokens);
    && |r| == Min(limit, |set w | w in ws|)
    && (forall i :: 0 <= i < |r| ==> r[i].product in ws && r[i].mentions == TokensCleanedTo(tokens, r[i].product))
    && (forall i, j :: 0 <= i < j < |r| ==> r[i].product != r[j].product)
    && SortedByMentions(r)
    && (forall w, i :: w in ws && 0 <= i < |r| && TokensCleanedTo(tokens, w) > r[i].mentions ==>
          exists j :: 0 <= j < |r| && r[j].product == w)
  }

  /** Every listed product is a lower-case ASCII word of more than three letters and not a stop word. */
  lemma ProductShape(texts: seq<Option<string>>, limit: int)
    requires GetTopProducts(texts, limit).Success?
    ensures forall p :: p in GetTopProducts(texts, limit).value ==>
      |p.product| > 3 && IsLowerWord(p.product) && p.product !in StopWords
  {
    var ws := Words(Tokens(texts));
    var ranked := Ranked(ws);
    RankedRows(ws);
    var r := Top(ws, limit);
    forall p | p in r ensures |p.product| > 3 && IsLowerWord(p.product) && p.product !in StopWords {
      var i :| 0 <= i < |r| && r[i] == p;
      assert ranked[i] == p;
    }
  }

  /** A negative limit is rejected; any other limit gives a result. */
  lemma NegativeLimitFails(texts: seq<Option<string>>, limit: int)
    ensures GetTopProducts(texts, limit).Failure? <==> limit < 0
  {
  }

  /** The groups in report order, before the limit applies. */
  function Ranked(ws: seq<string>): (s: seq<ProductMention>)
    ensures SortedByMentions(s)
  {
    SortByMentions(Tally(ws))
  }

  /** The first `limit` ranked groups. */
  function Top(ws: seq<string>, limit: nat): seq<ProductMention> {
    var s := Ranked(ws);
    s[..Min(limit, |s|)]
  }

  /** Every ranked row is a candidate word with its count, and there is one row per distinct word. */
  lemma RankedRows(ws: seq<string>)
    ensures |Ranked(ws)| == |set w | w in ws|
    ensures forall i :: 0 <= i < |Ranked(ws)| ==>
      Ranked(ws)[i].product in ws && Ranked(ws)[i].mentions == Count(ws, Ranked(ws)[i].product)
  {
    var t := Tally(ws);
    var s := Ranked(ws);
    assert |s| == |t| by {
      assert |multiset(s)| == |multiset(t)|;
    }
    DistinctCardinality(ws);
    forall i | 0 <= i < |s|
      ensures s[i].product in ws && s[i].mentions == Count(ws, s[i].product)
    {
      assert s[i] in multiset(t);
    }
  }

  /** No word is ranked twice. */
  lemma RankedDistinct(ws: seq<string>)
    ensures forall i, j :: 0 <= i < j < |Ranked(ws)| ==> Ranked(ws)[i].product != Ranked(ws)[j].product
  {
    var t := Tally(ws);
    var s := Ranked(ws);
    RankedRows(ws);
    TallyNoDuplicates(ws);
    forall i, j | 0 <= i < j < |s| ensures s[i].product != s[j].product {
      if s[i].product == s[j].product {
        assert s[i] == s[j];
        TwiceInMultiset(s, i, j);
        assert false;
      }
    }
  }

  /** Every candidate word is ranked. */
  lemma RankedPosition(ws: seq<string>, w: string) returns (n: nat)
    requires w in ws
    ensures n < |Ranked(ws)| && Ranked(ws)[n] == ProductMention(w, Count(ws, w))
  {
    var d := Distinct(ws);
    var t := Tally(ws);
    assert w in d;
    var m :| 0 <= m < |d| && d[m] == w;
    assert t[m] in multiset(Ranked(ws));
    n :| 0 <= n < |Ranked(ws)| && Ranked(ws)[n] == t[m];
  }

  /** Each listed word with its number of mentions. */
  lemma TopRows(tokens: seq<string>, limit: nat)
    ensures var r := Top(Words(tokens), limit);
      forall i :: 0 <= i < |r| ==>
        r[i].product in Words(tokens) && r[i].mentions == TokensCleanedTo(tokens, r[i].product)
  {
    var ws := Words(tokens);
    var s := Ranked(ws);
    var r := Top(ws, limit);
    RankedRows(ws);
    forall i | 0 <= i < |r|
      ensures r[i].product in ws && r[i].mentions == TokensCleanedTo(tokens, r[i].product)
    {
      assert r[i] == s[i];
      CountIsTokensCleanedTo(tokens, r[i].product);
    }
  }

  /** A word mentioned more often than some listed word is listed itself. */
  lemma TopComplete(tokens: seq<string>, limit: nat)
    ensures var ws := Words(tokens);
      var r := Top(ws, limit);
      forall w, i :: w in ws && 0 <= i < |r| && TokensCleanedTo(tokens, w) > r[i].mentions ==>
        exists j :: 0 <= j < |r| && r[j].product == w
  {
    var ws := Words(tokens);
    var s := Ranked(ws);
    var r := Top(ws, limit);
    forall w, i | w in ws && 0 <= i < |r| && TokensCleanedTo(tokens, w) > r[i].mentions
      ensures exists j :: 0 <= j < |r| && r[j].product == w
    {
      var n := RankedPosition(ws, w);
      CountIsTokensCleanedTo(tokens, w);
      assert s[i] == r[i];
      assert n < |r|;
      assert r[n] == s[n];
    }
  }

  /**
   * The query fails exactly when `LIMIT` is negative; otherwise its result
   * is one of the lists it may return.
   */
  lemma GetTopProductsCorrect(texts: seq<Option<string>>, limit: int)
    ensures GetTopProducts(texts, limit).Success? <==> limit >= 0
    ensures limit >= 0 ==> IsTopProducts(Tokens(texts), limit, GetTopProducts(texts, limit).value)
  {
    NegativeLimitFails(texts, limit);
    if limit >= 0 {
      var tokens := Tokens(texts);
      var ws := Words(tokens);
      RankedRows(ws);
      RankedDistinct(ws);
      TopRows(tokens, limit);
      TopComplete(tokens, limit);
    }
  }

  /** Called without a limit, the query succeeds with at most ten top rows. */
  lemma DefaultTopProducts(texts: seq<Option<string>>)
    ensures GetTopProducts(texts, DefaultLimit).Success?
    ensures |GetTopProducts(texts, DefaultLimit).value| <= 10
    ensures IsTopProducts(Tokens(texts), DefaultLimit, GetTopProducts(texts, DefaultLimit).value)
  {
    GetTopProductsCorrect(texts, DefaultLimit);
  }

  /** The number of groups is the number of distinct candidate words. */
  lemma {:induction false} DistinctCardinality(ws: seq<string>)
    ensures |Distinct(ws)| == |set w | w in ws|
  {
    if ws != [] {
      var front := ws[..|ws| - 1];
      var w := ws[|ws| - 1];
      DistinctCardinality(front);
      assert ws == front + [w];
      assert (set x | x in ws) == (set x | x in front) + {w};
      if w !in front {
        assert w !in (set x | x in front);
      }
    }
  }

  /** A list whose elements are pairwise distinct holds each value at most once. */
  lemma {:induction false} DistinctAtMostOnce(t: seq<ProductMention>)
    requires forall i, j :: 0 <= i < j < |t| ==> t[i] != t[j]
    ensures forall x :: multiset(t)[x] <= 1
  {
    if t != [] {
      var front := t[..|t| - 1];
      DistinctAtMostOnce(front);
      assert t == front + [t[|t| - 1]];
      assert t[|t| - 1] !in front;
    }
  }

  lemma TallyNoDuplicates(ws: seq<string>)
    ensures forall x :: multiset(Tally(ws))[x] <= 1
  {
    var t := Tally(ws);
    assert forall i, j :: 0 <= i < j < |t| ==> t[i].product != t[j].product;
    DistinctAtMostOnce(t);
  }

  lemma TwiceInMultiset(s: seq<ProductMention>, i: nat, j: nat)
    requires i < j < |s| && s[i] == s[j]
    ensures multiset(s)[s[i]] >= 2
  {
    assert s == s[..j] + [s[j]] + s[j + 1..];
    assert s[i] in s[..j];
  }

  lemma CountSnoc(ws: seq<string>, x: string, w: string)
    ensures Count(ws + [x], w) == Count(ws, w) + (if x == w then 1 else 0)
  {
    assert (ws + [x])[..|ws|] == ws;
  }

  /** Counting the true positions of a list of flags, one flag at a time. */
  lemma CountTrueSnoc(b: seq<bool>)
    requires b != []
    ensures |set i | 0 <= i < |b| && b[i]| ==
      |set i | 0 <= i < |b| - 1 && b[i]| + (if b[|b| - 1] then 1 else 0)
  {
    var n := |b| - 1;
    var sf := set i | 0 <= i < n && b[i];
    var s := set i | 0 <= i < |b| && b[i];
    if b[n] {
      assert s == sf + {n};
    } else {
      assert s == sf;
    }
  }

  /** Whether each token cleans to `w`. */
  function CleansTo(tokens: seq<string>, w: string): (b: seq<bool>)
    ensures |b| == |tokens|
  {
    seq(|tokens|, i requires 0 <= i < |tokens| => Clean(tokens[i]) == w)
  }

  lemma TokensCleanedToSnoc(tokens: seq<string>, w: string)
    requires tokens != []
    ensures TokensCleanedTo(tokens, w) ==
      TokensCleanedTo(tokens[..|tokens| - 1], w) + (if Clean(tokens[|tokens| - 1]) == w then 1 else 0)
  {
    var n := |tokens| - 1;
    var b := CleansTo(tokens, w);
    var front := tokens[..n];
    assert (set i | 0 <= i < |tokens| && Clean(tokens[i]) == w) == (set i | 0 <= i < |b| && b[i]);
    assert (set i | 0 <= i < |front| && Clean(front[i]) == w) == (set i | 0 <= i < |b| - 1 && b[i]) by {
      assert forall i :: 0 <= i < n ==> front[i] == tokens[i];
    }
    CountTrueSnoc(b);
  }

  /**
   * The count of a word that passes the filter is the number of tokens,
   * across all messages, whose cleaned form equals it.
   */
  lemma {:induction false} CountIsTokensCleanedTo(tokens: seq<string>, w: string)
    requires Passes(w)
    ensures Count(Words(tokens), w) == TokensCleanedTo(tokens, w)
  {
    if tokens == [] {
      assert (set i | 0 <= i < |tokens| && Clean(tokens[i]) == w) == {};
    } else {
      var front := tokens[..|tokens| - 1];
      var c := Clean(tokens[|tokens| - 1]);
      CountIsTokensCleanedTo(front, w);
      TokensCleanedToSnoc(tokens, w);
      if Passes(c) {
        CountSnoc(Words(front), c, w);
      }
    }
  }
}
