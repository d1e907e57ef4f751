/**
 * Topic extraction (`extract_topics`): keep the tokens that are alphanumeric
 * and not stopwords, count them in first-occurrence order the way a
 * frequency table (`FreqDist`, a `Counter`) does, and return the
 * `numTopics` most frequent entries in descending order of count, ties in
 * first-occurrence order, as `most_common` does.
 *
 * The tokenizer and the stopword corpus are external; the model receives
 * the token sequence and the stopword set as parameters.
 */
module TopicExtractor {
  import opened TextOps

  /** The default `num_topics`. */
  const DefaultNumTopics: int := 5

  /** One (token, frequency) pair of the returned mapping. */
  datatype Entry = Entry(word: string, count: nat)

  /** A token survives the filter when it is alphanumeric and not a stopword. */
  predicate Keep(w: string, stopwords: set<string>) {
    IsAlnum(w) && w !in stopwords
  }

  /** The comprehension `[w for w in words if w.isalnum() and w not in stop_words]`. */
  function Filtered(tokens: seq<string>, stopwords: set<string>): (ws: seq<string>)
    ensures forall w :: w in ws ==> Keep(w, stopwords) && w in tokens
    ensures forall w :: multiset(ws)[w] == if Keep(w, stopwords) then multiset(tokens)[w] else 0
    decreases |tokens|
  {
    if |tokens| == 0 then []
    else
      var rest := Filtered(tokens[1..], stopwords);
      assert tokens == [tokens[0]] + tokens[1..];
      if Keep(tokens[0], stopwords) then [tokens[0]] + rest else rest
  }

  /** The index of the first occurrence of `w` in `ws`. */
  function First(ws: seq<string>, w: string): (k: nat)
    requires w in ws
    ensures k < |ws| && ws[k] == w
    ensures forall j :: 0 <= j < k ==> ws[j] != w
    decreases |ws|
  {
    if ws[0] == w then 0 else 1 + First(ws[1..], w)
  }

  /** The words of a table. */
  function Words(t: seq<Entry>): set<string> {
    set e | e in t :: e.word
  }

  /** The words of `t` are pairwise different. */
  predicate DistinctWords(t: seq<Entry>) {
    forall i, j :: 0 <= i < j < |t| ==> t[i].word != t[j].word
  }

  /** `t` is a frequency table of `ws`: each entry is a word of `ws` with its
      number of occurrences, and the entries are in the order in which
      their words first occur in `ws`. */
  predicate Tabulates(ws: seq<string>, t: seq<Entry>) {
    && (forall e :: e in t ==> e.word in ws && e.count == multiset(ws)[e.word])
    && (forall i, j :: 0 <= i < j < |t| ==> First(ws, t[i].word) < First(ws, t[j].word))
  }

  /** One update of the frequency table: the entry for `w` goes up by one,
      and a word seen for the first time is appended with count 1. */
  function Bump(t: seq<Entry>, w: string): (r: seq<Entry>)
    requires DistinctWords(t)
    ensures w !in Words(t) ==> r == t + [Entry(w, 1)]
    ensures w in Words(t) ==> |r| == |t|
    ensures forall i :: 0 <= i < |t| ==> r[i] == if t[i].word == w then Entry(w, t[i].count + 1) else t[i]
    decreases |t|
  {
    if |t| == 0 then [Entry(w, 1)]
    else if t[0].word == w then
      assert w in Words(t);
      [Entry(w, t[0].count + 1)] + t[1..]
    else
      assert Words(t) == {t[0].word} + Words(t[1..]);
      [t[0]] + Bump(t[1..], w)
  }

  lemma {:induction false} FirstOfPrefix(ws: seq<string>, w: string, x: string)
    requires x in ws
    ensures First(ws + [w], x) == First(ws, x)
  {
    var k := First(ws, x);
    var k' := First(ws + [w], x);
    assert (ws + [w])[k] == x;
    assert k' <= k;
    assert ws[k'] == (ws + [w])[k'];
  }

  lemma {:induction false} TabulatesDistinct(ws: seq<string>, t: seq<Entry>)
    requires Tabulates(ws, t)
    ensures DistinctWords(t)
  {
    forall i, j | 0 <= i < j < |t| ensures t[i].word != t[j].word {
      assert t[i] in t && t[j] in t;
    }
  }

  /** FreqDist(ws): the frequency table of `ws`, built one token at a time. */
  function Freq(ws: seq<string>): (t: seq<Entry>)
    ensures Tabulates(ws, t)
    ensures Words(t) == set w | w in ws
    decreases |ws|
  {
    if |ws| == 0 then []
    else
      var p := ws[..|ws| - 1];
      var w := ws[|ws| - 1];
      var t := Freq(p);
      assert ws == p + [w];
      TabulatesDistinct(p, t);
      BumpTabulates(p, w, t);
      Bump(t, w)
  }

  lemma {:induction false} BumpTabulates(p: seq<string>, w: string, t: seq<Entry>)
    requires Tabulates(p, t) && Words(t) == set x | x in p
    requires DistinctWords(t)
    ensures Tabulates(p + [w], Bump(t, w))
    ensures Words(Bump(t, w)) == set x | x in p + [w]
  {
    if w in Words(t) {
      BumpSeen(p, w, t);
    } else {
      BumpUnseen(p, w, t);
    }
  }

  lemma {:induction false} BumpSeen(p: seq<string>, w: string, t: seq<Entry>)
    requires Tabulates(p, t) && Words(t) == set x | x in p
    requires DistinctWords(t) && w in Words(t)
    ensures Tabulates(p + [w], Bump(t, w))
    ensures Words(Bump(t, w)) == set x | x in p + [w]
  {
    var ws := p + [w];
    var r := Bump(t, w);
    BumpSeenCounts(p, w, t);
    BumpSeenOrder(p, w, t);
    forall e | e in r ensures e.word in ws && e.count == multiset(ws)[e.word] {
      var i :| 0 <= i < |r| && r[i] == e;
    }
    SameWords(t, r);
  }

  /** Bumping a seen word keeps each entry's word and makes its count the
      count in `p + [w]`. */
  lemma BumpSeenCounts(p: seq<string>, w: string, t: seq<Entry>)
    requires forall e :: e in t ==> e.word in p && e.count == multiset(p)[e.word]
    requires DistinctWords(t) && w in Words(t)
    ensures |Bump(t, w)| == |t|
    ensures forall i :: 0 <= i < |t| ==>
              && Bump(t, w)[i].word == t[i].word
              && Bump(t, w)[i].word in p + [w]
              && Bump(t, w)[i].count == multiset(p + [w])[Bump(t, w)[i].word]
  {
    var r := Bump(t, w);
    assert multiset(p + [w]) == multiset(p) + multiset{w};
    forall i | 0 <= i < |t|
      ensures r[i].word == t[i].word && r[i].word in p + [w] && r[i].count == multiset(p + [w])[r[i].word]
    {
      assert t[i] in t;
    }
  }

  /** Bumping a seen word keeps the entries in first-occurrence order. */
  lemma BumpSeenOrder(p: seq<string>, w: string, t: seq<Entry>)
    requires Tabulates(p, t) && DistinctWords(t) && w in Words(t)
    ensures forall i, j :: 0 <= i < j < |Bump(t, w)| ==>
              && Bump(t, w)[i].word in p + [w] && Bump(t, w)[j].word in p + [w]
              && First(p + [w], Bump(t, w)[i].word) < First(p + [w], Bump(t, w)[j].word)
  {
    var r := Bump(t, w);
    forall i, j | 0 <= i < j < |r|
      ensures r[i].word in p + [w] && r[j].word in p + [w] && First(p + [w], r[i].word) < First(p + [w], r[j].word)
    {
      assert t[i] in t && t[j] in t;
      FirstOfPrefix(p, w, t[i].word);
      FirstOfPrefix(p, w, t[j].word);
    }
  }

  lemma SameWords(t: seq<Entry>, r: seq<Entry>)
    requires |r| == |t| && forall i :: 0 <= i < |t| ==> r[i].word == t[i].word
    ensures Words(r) == Words(t)
  {
    forall x | x in Words(r) ensures x in Words(t) {
      var e :| e in r && e.word == x;
      var i :| 0 <= i < |r| && r[i] == e;
      assert t[i] in t;
    }
    forall x | x in Words(t) ensures x in Words(r) {
      var e :| e in t && e.word == x;
      var i :| 0 <= i < |t| && t[i] == e;
      assert r[i] in r;
    }
  }

  lemma {:induction false} BumpUnseen(p: seq<string>, w: string, t: seq<Entry>)
    requires Tabulates(p, t) && Words(t) == set x | x in p
    requires DistinctWords(t) && w !in Words(t)
    ensures Tabulates(p + [w], Bump(t, w))
    ensures Words(Bump(t, w)) == set x | x in p + [w]
  {
    var r := Bump(t, w);
    assert w !in p;
    assert r == t + [Entry(w, 1)];
    AppendUnseen(p, w, t);
    assert Words(r) == Words(t) + {w} by {
      assert forall e :: e in r <==> e in t || e == Entry(w, 1);
    }
  }

  /** The first occurrence of an unseen word appended to `p` is at `|p|`. */
  lemma FirstOfUnseen(p: seq<string>, w: string)
    requires w !in p
    ensures First(p + [w], w) == |p|
  {
    assert forall i :: 0 <= i < |p| ==> (p + [w])[i] == p[i];
  }

  /** Appending an unseen word with count 1 to a frequency table of `p`
      gives a frequency table of `p + [w]`. */
  lemma AppendUnseen(p: seq<string>, w: string, t: seq<Entry>)
    requires Tabulates(p, t) && w !in p
    ensures Tabulates(p + [w], t + [Entry(w, 1)])
  {
    var ws := p + [w];
    var r := t + [Entry(w, 1)];
    assert multiset(ws) == multiset(p) + multiset{w};
    forall e | e in r ensures e.word in ws && e.count == multiset(ws)[e.word] {
      if e in t {
        assert e.word != w;
      } else {
        assert e == Entry(w, 1);
        assert multiset(p)[w] == 0;
      }
    }
    FirstOfUnseen(p, w);
    forall i, j | 0 <= i < j < |r| ensures First(ws, r[i].word) < First(ws, r[j].word) {
      assert r[i] == t[i] && t[i] in t;
      FirstOfPrefix(p, w, t[i].word);
      if j < |t| {
        assert r[j] == t[j] && t[j] in t;
        FirstOfPrefix(p, w, t[j].word);
      } else {
        assert r[j].word == w;
      }
    }
  }

  /** `x` comes before `y` in `most_common` order: a larger count first, and
      on equal counts the word that occurs first in `ws`. */
  predicate Precedes(ws: seq<string>, x: Entry, y: Entry) {
    && x.word in ws && y.word in ws
    && (x.count > y.count || (x.count == y.count && First(ws, x.word) < First(ws, y.word)))
  }

  /** Every entry comes before every later one. */
  predicate SortedDesc(ws: seq<string>, s: seq<Entry>) {
    forall a, b :: 0 <= a < b < |s| ==> Precedes(ws, s[a], s[b])
  }

  /** One step of a stable sort on descending count: `x` goes in front of the
      first entry whose count is not larger than its own. */
  function Insert(x: Entry, s: seq<Entry>): (r: seq<Entry>)
    ensures multiset(r) == multiset(s) + multiset{x}
    decreases |s|
  {
    if |s| == 0 || x.count >= s[0].count then [x] + s
    else
      assert s == [s[0]] + s[1..];
      [s[0]] + Insert(x, s[1..])
  }

  /** `sorted(table, key=count, reverse=True)`: Python's sort is stable, so
      entries with equal counts keep their table order. */
  function SortDesc(t: seq<Entry>): (s: seq<Entry>)
    ensures multiset(s) == multiset(t)
    decreases |t|
  {
    if |t| == 0 then []
    else
      assert t == [t[0]] + t[1..];
      Insert(t[0], SortDesc(t[1..]))
  }

  /** `most_common(n)`: the first `n` entries of the sorted table; nothing
      when `n` is zero or negative. */
  function MostCommon(t: seq<Entry>, n: int): (r: seq<Entry>)
    ensures |r| == if n <= 0 then 0 else if n < |t| then n else |t|
  {
    var s := SortDesc(t);
    assert |s| == |multiset(s)| == |t|;
    if n <= 0 then [] else if n < |s| then s[..n] else s
  }

  lemma {:induction false} InsertSorted(ws: seq<string>, x: Entry, s: seq<Entry>)
    requires SortedDesc(ws, s) && x.word in ws
    requires forall y :: y in s ==> y.word in ws
    requires forall y :: y in s ==> x.count > y.count || First(ws, x.word) < First(ws, y.word)
    ensures SortedDesc(ws, Insert(x, s))
    decreases |s|
  {
    if |s| == 0 {
    } else if x.count >= s[0].count {
      InsertInFront(ws, x, s);
    } else {
      var s' := s[1..];
      SortedTail(ws, s);
      assert forall y :: y in s' ==> y in s;
      InsertSorted(ws, x, s');
      assert s[0] in s;
      InsertBehind(ws, x, s);
    }
  }

  lemma SortedTail(ws: seq<string>, s: seq<Entry>)
    requires SortedDesc(ws, s) && |s| > 0
    ensures SortedDesc(ws, s[1..])
    ensures forall y :: y in s[1..] ==> Precedes(ws, s[0], y)
  {
    var s' := s[1..];
    forall a, b | 0 <= a < b < |s'| ensures Precedes(ws, s'[a], s'[b]) {
      assert s'[a] == s[a + 1] && s'[b] == s[b + 1];
    }
    forall y | y in s' ensures Precedes(ws, s[0], y) {
      var j :| 0 <= j < |s'| && s'[j] == y;
      assert s[j + 1] == y;
    }
  }

  lemma InsertInFront(ws: seq<string>, x: Entry, s: seq<Entry>)
    requires SortedDesc(ws, s) && x.word in ws && |s| > 0 && x.count >= s[0].count
    requires forall y :: y in s ==> y.word in ws
    requires forall y :: y in s ==> x.count > y.count || First(ws, x.word) < First(ws, y.word)
    ensures SortedDesc(ws, Insert(x, s))
  {
    assert Insert(x, s) == [x] + s;
    forall b | 0 <= b < |s| ensures Precedes(ws, x, s[b]) {
      assert s[b] in s;
      if b > 0 {
        assert Precedes(ws, s[0], s[b]);
      }
    }
    PrependSorted(ws, x, s);
  }

  /** An entry that comes before every entry of a sorted list can go in
      front of it. */
  lemma PrependSorted(ws: seq<string>, x: Entry, s: seq<Entry>)
    requires SortedDesc(ws, s)
    requires forall b :: 0 <= b < |s| ==> Precedes(ws, x, s[b])
    ensures SortedDesc(ws, [x] + s)
  {
    var r := [x] + s;
    forall a, b | 0 <= a < b < |r| ensures Precedes(ws, r[a], r[b]) {
      assert r[b] == s[b - 1];
      if a > 0 {
        assert r[a] == s[a - 1];
      }
    }
  }

  lemma InsertBehind(ws: seq<string>, x: Entry, s: seq<Entry>)
    requires |s| > 0 && x.count < s[0].count
    requires SortedDesc(ws, Insert(x, s[1..])) && x.word in ws && s[0].word in ws
    requires forall y :: y in s[1..] ==> Precedes(ws, s[0], y)
    ensures SortedDesc(ws, Insert(x, s))
  {
    var r := Insert(x, s);
    var r' := Insert(x, s[1..]);
    assert r == [s[0]] + r';
    forall b | 0 < b < |r| ensures Precedes(ws, r[0], r[b]) {
      assert r[b] == r'[b - 1];
      assert r'[b - 1] in multiset(r');
      if r'[b - 1] != x {
        assert r'[b - 1] in s[1..];
      }
    }
    forall a, b | 0 < a < b < |r| ensures Precedes(ws, r[a], r[b]) {
      assert r[a] == r'[a - 1] && r[b] == r'[b - 1];
    }
  }

  lemma {:induction false} TabulatesTail(ws: seq<string>, t: seq<Entry>)
    requires Tabulates(ws, t) && |t| > 0
    ensures Tabulates(ws, t[1..])
    ensures forall y :: y in t[1..] ==> First(ws, t[0].word) < First(ws, y.word)
  {
    var t' := t[1..];
    assert forall e :: e in t' ==> e in t;
    forall a, b | 0 <= a < b < |t'| ensures First(ws, t'[a].word) < First(ws, t'[b].word) {
      assert t'[a] == t[a + 1] && t'[b] == t[b + 1];
    }
    forall y | y in t' ensures First(ws, t[0].word) < First(ws, y.word) {
      var j :| 0 <= j < |t'| && t'[j] == y;
      assert t[j + 1] == y;
    }
  }

  /** Sorting a frequency table of `ws` puts it in `most_common` order. */
  lemma {:induction false} SortDescSorted(ws: seq<string>, t: seq<Entry>)
    requires Tabulates(ws, t)
    ensures SortedDesc(ws, SortDesc(t))
    decreases |t|
  {
    if |t| > 0 {
      assert t[0] in t;
      TabulatesTail(ws, t);
      SortDescSorted(ws, t[1..]);
      var s' := SortDesc(t[1..]);
      forall y | y in s' ensures y.word in ws && First(ws, t[0].word) < First(ws, y.word) {
        assert y in multiset(s');
        assert y in t[1..];
      }
      InsertSorted(ws, t[0], s');
    }
  }

  /** Within a frequency table, an entry is determined by its word. */
  lemma SameWordSameEntry(ws: seq<string>, t: seq<Entry>, x: Entry, y: Entry)
    requires Tabulates(ws, t) && x in t && y in t
    ensures x.word == y.word ==> x == y
  {
  }

  /** Sorting keeps the entries of the table. */
  lemma SortDescMembers(t: seq<Entry>)
    ensures |SortDesc(t)| == |t|
    ensures forall e :: e in SortDesc(t) <==> e in t
  {
    var s := SortDesc(t);
    assert |s| == |multiset(s)| == |t|;
    forall e ensures e in s <==> e in t {
      assert e in s <==> e in multiset(s);
      assert e in t <==> e in multiset(t);
    }
  }

  /** What `most_common(n)` promises about a frequency table of `ws`: only
      table entries, each word once, in descending order of count; and an
      entry it leaves out has no larger count than one it keeps, and on an
      equal count occurs later in `ws`. */
  lemma MostCommonProperties(ws: seq<string>, t: seq<Entry>, n: int)
    requires Tabulates(ws, t)
    ensures forall e :: e in MostCommon(t, n) ==> e in t
    ensures DistinctWords(MostCommon(t, n))
    ensures forall a, b :: 0 <= a < b < |MostCommon(t, n)| ==> MostCommon(t, n)[a].count >= MostCommon(t, n)[b].count
    ensures forall e, k :: e in t && e !in MostCommon(t, n) && 0 <= k < |MostCommon(t, n)| ==>
              Precedes(ws, MostCommon(t, n)[k], e)
    ensures SortedDesc(ws, MostCommon(t, n))
  {
    var s := SortDesc(t);
    var r := MostCommon(t, n);
    SortDescSorted(ws, t);
    SortDescMembers(t);
    assert forall k :: 0 <= k < |r| ==> r[k] == s[k];
    forall e | e in r ensures e in t {
      var k :| 0 <= k < |r| && r[k] == e;
      assert s[k] in s;
    }
    forall a, b | 0 <= a < b < |r| ensures r[a].word != r[b].word && Precedes(ws, r[a], r[b]) {
      assert Precedes(ws, s[a], s[b]);
      assert s[a] in s && s[b] in s;
      SameWordSameEntry(ws, t, s[a], s[b]);
    }
    forall e, k | e in t && e !in r && 0 <= k < |r| ensures Precedes(ws, r[k], e) {
      assert e in s;
      var j :| 0 <= j < |s| && s[j] == e;
      assert r == s[..|r|];
      assert j >= |r|;
      assert Precedes(ws, s[k], s[j]);
    }
  }

  /** Keeping only the surviving tokens does not change which of two
      surviving words occurs first. */
  lemma {:induction false} FilteredKeepsFirstOrder(tokens: seq<string>, stopwords: set<string>, u: string, v: string)
    requires u in tokens && v in tokens && Keep(u, stopwords) && Keep(v, stopwords)
    ensures u in Filtered(tokens, stopwords) && v in Filtered(tokens, stopwords)
    ensures First(Filtered(tokens, stopwords), u) < First(Filtered(tokens, stopwords), v)
            <==> First(tokens, u) < First(tokens, v)
    decreases |tokens|
  {
    var ws := Filtered(tokens, stopwords);
    assert multiset(ws)[u] == multiset(tokens)[u] > 0;
    assert multiset(ws)[v] == multiset(tokens)[v] > 0;
    if tokens[0] != u && tokens[0] != v {
      var rest := tokens[1..];
      assert tokens == [tokens[0]] + rest;
      assert u in rest && v in rest;
      FilteredKeepsFirstOrder(rest, stopwords, u, v);
      if Keep(tokens[0], stopwords) {
        assert ws == [tokens[0]] + Filtered(rest, stopwords);
        assert ws[1..] == Filtered(rest, stopwords);
      }
    } else if Keep(tokens[0], stopwords) {
      assert ws == [tokens[0]] + Filtered(tokens[1..], stopwords);
    }
  }

  /** `extract_topics(text, num_topics)` on the tokens of the lower-cased text. */
  function ExtractTopics(tokens: seq<string>, stopwords: set<string>, numTopics: int): (r: seq<Entry>)
    ensures numTopics >= 0 ==> |r| <= numTopics
  {
    MostCommon(Freq(Filtered(tokens, stopwords)), numTopics)
  }

  /** What `extract_topics` returns: at most `numTopics` (token, count) pairs,
      each token alphanumeric, not a stopword and present in the text, with
      its number of occurrences; each token once, in descending order of
      count; no surviving token that is left out occurs more often than one
      that is kept, nor equally often with an earlier first occurrence; and
      the result is empty exactly when `numTopics` is not positive or no
      token survives the filter. */
  lemma ExtractTopicsProperties(tokens: seq<string>, stopwords: set<string>, numTopics: int)
    ensures numTopics >= 0 ==> |ExtractTopics(tokens, stopwords, numTopics)| <= numTopics
    ensures forall e :: e in ExtractTopics(tokens, stopwords, numTopics) ==>
              Keep(e.word, stopwords) && e.word in tokens && e.count == multiset(tokens)[e.word]
    ensures DistinctWords(ExtractTopics(tokens, stopwords, numTopics))
    ensures forall a, b :: 0 <= a < b < |ExtractTopics(tokens, stopwords, numTopics)| ==>
              ExtractTopics(tokens, stopwords, numTopics)[a].count >= ExtractTopics(tokens, stopwords, numTopics)[b].count
    ensures forall w, e :: w in tokens && Keep(w, stopwords) && w !in Words(ExtractTopics(tokens, stopwords, numTopics)) &&
                           e in ExtractTopics(tokens, stopwords, numTopics) ==>
              || multiset(tokens)[w] < e.count
              || (multiset(tokens)[w] == e.count && First(tokens, e.word) < First(tokens, w))
    ensures ExtractTopics(tokens, stopwords, numTopics) == [] <==>
              numTopics <= 0 || forall w :: w in tokens ==> !Keep(w, stopwords)
    ensures forall w :: numTopics > 0 && w in tokens && Keep(w, stopwords) &&
                        w !in Words(ExtractTopics(tokens, stopwords, numTopics)) ==>
              |ExtractTopics(tokens, stopwords, numTopics)| == numTopics
  {
    var ws := Filtered(tokens, stopwords);
    var t := Freq(ws);
    var r := MostCommon(t, numTopics);
    assert r == ExtractTopics(tokens, stopwords, numTopics);
    MostCommonProperties(ws, t, numTopics);
    MostCommonFull(t, numTopics);
    forall e | e in r ensures Keep(e.word, stopwords) && e.word in tokens && e.count == multiset(tokens)[e.word] {
      assert e in t;
    }
    forall w, e | w in tokens && Keep(w, stopwords) && w !in Words(r) && e in r
      ensures || multiset(tokens)[w] < e.count
              || (multiset(tokens)[w] == e.count && First(tokens, e.word) < First(tokens, w))
    {
      LeftOutAfter(tokens, stopwords, numTopics, w, e);
    }
    forall w | numTopics > 0 && w in tokens && Keep(w, stopwords) && w !in Words(r) ensures |r| == numTopics {
      SurvivorInTable(tokens, stopwords, w);
    }
    if numTopics > 0 && exists w :: w in tokens && Keep(w, stopwords) {
      var w :| w in tokens && Keep(w, stopwords);
      SurvivorInTable(tokens, stopwords, w);
      assert |t| > 0;
    }
    if r != [] {
      assert r[0] in r;
      assert r[0] in t;
    }
  }

  /** A surviving token has an entry in the frequency table. */
  lemma SurvivorInTable(tokens: seq<string>, stopwords: set<string>, w: string)
    requires w in tokens && Keep(w, stopwords)
    ensures exists x :: x in Freq(Filtered(tokens, stopwords)) && x.word == w
  {
    var ws := Filtered(tokens, stopwords);
    assert multiset(ws)[w] == multiset(tokens)[w];
    assert w in ws;
    assert w in Words(Freq(ws));
  }

  /** A surviving token `w` that is left out comes after each topic `e`:
      it occurs less often, or equally often but first appears later. */
  lemma LeftOutAfter(tokens: seq<string>, stopwords: set<string>, numTopics: int, w: string, e: Entry)
    requires w in tokens && Keep(w, stopwords)
    requires w !in Words(MostCommon(Freq(Filtered(tokens, stopwords)), numTopics))
    requires e in MostCommon(Freq(Filtered(tokens, stopwords)), numTopics)
    ensures && e.word in tokens
            && (|| multiset(tokens)[w] < e.count
                || (multiset(tokens)[w] == e.count && First(tokens, e.word) < First(tokens, w)))
  {
    var ws := Filtered(tokens, stopwords);
    var t := Freq(ws);
    var r := MostCommon(t, numTopics);
    MostCommonProperties(ws, t, numTopics);
    assert multiset(ws)[w] == multiset(tokens)[w];
    assert w in ws;
    assert w in Words(t);
    var x :| x in t && x.word == w;
    assert x !in r;
    var k :| 0 <= k < |r| && r[k] == e;
    assert Precedes(ws, e, x);
    assert e in t;
    FilteredKeepsFirstOrder(tokens, stopwords, e.word, w);
  }

  /** `most_common(n)` leaves an entry of the table out only when it
      already returns `n` entries. */
  lemma MostCommonFull(t: seq<Entry>, n: int)
    ensures forall e :: n > 0 && e in t && e !in MostCommon(t, n) ==> |MostCommon(t, n)| == n
  {
    SortDescMembers(t);
    forall e | n > 0 && e in t && e !in MostCommon(t, n) ensures |MostCommon(t, n)| == n {
      assert e in SortDesc(t);
      assert MostCommon(t, n) != SortDesc(t);
    }
  }

  /** Topics with equal counts come in the order their words first occur in
      the tokens. */
  lemma ExtractTopicsTiesInOrder(tokens: seq<string>, stopwords: set<string>, numTopics: int)
    ensures forall a, b :: 0 <= a < b < |ExtractTopics(tokens, stopwords, numTopics)| &&
                           ExtractTopics(tokens, stopwords, numTopics)[a].count == ExtractTopics(tokens, stopwords, numTopics)[b].count ==>
              && ExtractTopics(tokens, stopwords, numTopics)[a].word in tokens
              && ExtractTopics(tokens, stopwords, numTopics)[b].word in tokens
              && First(tokens, ExtractTopics(tokens, stopwords, numTopics)[a].word)
                 < First(tokens, ExtractTopics(tokens, stopwords, numTopics)[b].word)
  {
    var ws := Filtered(tokens, stopwords);
    var t := Freq(ws);
    var r := MostCommon(t, numTopics);
    assert r == ExtractTopics(tokens, stopwords, numTopics);
    MostCommonProperties(ws, t, numTopics);
    forall a, b | 0 <= a < b < |r| && r[a].count == r[b].count
      ensures r[a].word in tokens && r[b].word in tokens && First(tokens, r[a].word) < First(tokens, r[b].word)
    {
      assert r[a] in r && r[b] in r;
      assert Precedes(ws, r[a], r[b]);
      FilteredKeepsFirstOrder(tokens, stopwords, r[a].word, r[b].word);
    }
  }

  lemma TwoEntriesTwoWords(r: seq<Entry>)
    requires DistinctWords(r) && 1 < |r|
    ensures r[0] in r && r[1] in r && r[0].word != r[1].word
  {
  }

  /** When only one token survives the filter, the topics are that token
      with its number of occurrences. */
  lemma ExtractTopicsSingleWord(tokens: seq<string>, stopwords: set<string>, numTopics: int, w: string)
    requires numTopics > 0 && w in tokens && Keep(w, stopwords)
    requires forall v :: v in tokens && Keep(v, stopwords) ==> v == w
    ensures ExtractTopics(tokens, stopwords, numTopics) == [Entry(w, multiset(tokens)[w])]
  {
    var r := ExtractTopics(tokens, stopwords, numTopics);
    ExtractTopicsProperties(tokens, stopwords, numTopics);
    if 1 < |r| {
      TwoEntriesTwoWords(r);
      assert false;
    }
    assert r[0] in r;
  }

  /** The tokens of "I love this! I love this!" with "i" and "this" as
      stopwords give the single topic ("love", 2). */
  lemma LoveExample()
    ensures ExtractTopics(["i", "love", "this", "!", "i", "love", "this", "!"], {"i", "this"}, DefaultNumTopics)
         == [Entry("love", 2)]
  {
    var tokens := ["i", "love", "this", "!", "i", "love", "this", "!"];
    assert !IsAlnumChar("!"[0]);
    assert forall v :: v in tokens ==> v in {"i", "love", "this", "!"};
    assert multiset(tokens)["love"] == 2;
    ExtractTopicsSingleWord(tokens, {"i", "this"}, DefaultNumTopics, "love");
  }
}
