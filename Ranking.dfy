/** The cipher-symbol ranking of the decoding script: the symbols of the
    ciphertext, ignored characters dropped, counted case-sensitively,
    upper-cased, and ordered by non-increasing frequency. Only the ordered
    list of symbols is kept. */
module Ranking {
  import opened CaseMap

  /** The characters the script never substitutes: punctuation, the quotes,
      the newline and the space. */
  const IgnoreChars: seq<char> :=
    ['.', ',', '!', '?', ';', ':', '-', '(', ')', '"', '\'', '\n', ' ']

  predicate IsIgnored(c: char) {
    c in IgnoreChars
  }

  /** No ignored character is a letter, so case mapping never moves a
      character into or out of the ignored set. */
  lemma IgnoredAreUncased(c: char)
    ensures IsIgnored(c) ==> !IsLower(c) && !IsUpper(c)
    ensures IsIgnored(Upper(c)) <==> IsIgnored(c)
  {
  }

  /** The characters of `text` that are counted, in order: every character
      that is not ignored keeps its number of occurrences, every ignored
      one is gone. */
  function Kept(text: seq<char>): (k: seq<char>)
    ensures |k| <= |text|
    ensures forall c :: c in k <==> c in text && !IsIgnored(c)
    ensures forall c :: Count(k, c) == if IsIgnored(c) then 0 else Count(text, c)
  {
    if text == [] then []
    else
      var head := if IsIgnored(text[0]) then [] else [text[0]];
      CountConcat(head, Kept(text[1..]));
      head + Kept(text[1..])
  }

  /** Number of occurrences of `c` in `s`. */
  function Count(s: seq<char>, c: char): (n: nat)
    ensures n <= |s|
    ensures n > 0 <==> c in s
  {
    if s == [] then 0
    else (if s[0] == c then 1 else 0) + Count(s[1..], c)
  }

  /** Occurrences in a concatenation add up. */
  lemma {:induction false} CountConcat(a: seq<char>, b: seq<char>)
    ensures forall c :: Count(a + b, c) == Count(a, c) + Count(b, c)
  {
    if a != [] {
      CountConcat(a[1..], b);
      assert (a + b)[0] == a[0] && (a + b)[1..] == a[1..] + b;
    } else {
      assert a + b == b;
    }
  }

  predicate NoDuplicates(s: seq<char>) {
    forall i, j :: 0 <= i < j < |s| ==> s[i] != s[j]
  }

  /** The distinct characters of `s`, each once. */
  function Distinct(s: seq<char>): (d: seq<char>)
    ensures NoDuplicates(d)
    ensures forall c :: c in d <==> c in s
  {
    if s == [] then []
    else if s[0] in s[1..] then Distinct(s[1..])
    else [s[0]] + Distinct(s[1..])
  }

  /** One row of the frequency table: a symbol and how often it occurs. */
  datatype Row = Row(symbol: char, freq: nat)

  /** The symbols of a table, in row order (the table with its frequency
      column dropped). */
  function Symbols(rows: seq<Row>): (s: seq<char>)
    ensures |s| == |rows|
    ensures forall i :: 0 <= i < |rows| ==> s[i] == rows[i].symbol
  {
    seq(|rows|, i requires 0 <= i < |rows| => rows[i].symbol)
  }

  /** Group-by-symbol with group sizes: one row per distinct symbol of `s`,
      holding its number of occurrences. */
  function GroupBySize(s: seq<char>): (rows: seq<Row>)
    ensures NoDuplicates(Symbols(rows))
    ensures forall r :: r in rows ==> r.symbol in s && r.freq == Count(s, r.symbol) && r.freq > 0
    ensures forall c :: c in s ==> Row(c, Count(s, c)) in rows
  {
    var d := Distinct(s);
    var rows := seq(|d|, i requires 0 <= i < |d| => Row(d[i], Count(s, d[i])));
    assert Symbols(rows) == d;
    assert forall c :: c in s ==> Row(c, Count(s, c)) in rows by {
      forall c | c in s ensures Row(c, Count(s, c)) in rows {
        var i :| 0 <= i < |d| && d[i] == c;
        assert rows[i] == Row(c, Count(s, c));
      }
    }
    rows
  }

  /** The table with every symbol upper-cased; frequencies are kept. */
  function UpperSymbols(rows: seq<Row>): (u: seq<Row>)
    ensures |u| == |rows|
    ensures forall i :: 0 <= i < |rows| ==> u[i] == Row(Upper(rows[i].symbol), rows[i].freq)
  {
    seq(|rows|, i requires 0 <= i < |rows| => Row(Upper(rows[i].symbol), rows[i].freq))
  }

  /** Rows in order of non-increasing frequency. */
  predicate NonIncreasing(rows: seq<Row>) {
    forall i, j :: 0 <= i < j < |rows| ==> rows[i].freq >= rows[j].freq
  }

  /** No row of `s` is more frequent than `f`. */
  predicate AtMost(s: seq<Row>, f: nat) {
    forall y :: y in s ==> y.freq <= f
  }

  /** A row no less frequent than every row of an ordered table may head it. */
  lemma PrependKeepsOrder(h: Row, s: seq<Row>)
    requires NonIncreasing(s) && AtMost(s, h.freq)
    ensures NonIncreasing([h] + s)
  {
    forall i, j | 0 <= i < j < |[h] + s| ensures ([h] + s)[i].freq >= ([h] + s)[j].freq {
      if i > 0 {
        assert ([h] + s)[i] == s[i - 1] && ([h] + s)[j] == s[j - 1];
      } else {
        assert ([h] + s)[j] in s;
      }
    }
  }

  /** The bound survives adding one row within it, in any order. */
  lemma AtMostPermutation(r: seq<Row>, s: seq<Row>, x: Row, f: nat)
    requires multiset(r) == multiset(s) + multiset{x}
    requires AtMost(s, f) && x.freq <= f
    ensures AtMost(r, f)
  {
    forall y | y in r ensures y.freq <= f {
      assert y in multiset(r);
      if y != x {
        assert y in multiset(s);
      }
    }
  }

  /** The head of an ordered table bounds the rest of it. */
  lemma HeadBoundsTail(s: seq<Row>)
    requires NonIncreasing(s) && s != []
    ensures AtMost(s[1..], s[0].freq)
  {
    forall y | y in s[1..] ensures y.freq <= s[0].freq {
      var k :| 0 <= k < |s[1..]| && s[1..][k] == y;
      assert s[k + 1] == y;
    }
  }

  /** Places `x` into a table already in non-increasing order, ahead of
      every row whose frequency does not exceed its own. */
  function InsertByFreq(x: Row, sorted: seq<Row>): (r: seq<Row>)
    requires NonIncreasing(sorted)
    ensures NonIncreasing(r)
    ensures multiset(r) == multiset(sorted) + multiset{x}
  {
    if sorted == [] || sorted[0].freq <= x.freq then
      assert AtMost(sorted, x.freq) by {
        if sorted != [] { HeadBoundsTail(sorted); }
      }
      PrependKeepsOrder(x, sorted);
      [x] + sorted
    else
      var head, tail := sorted[0], sorted[1..];
      assert sorted == [head] + tail;
      var rest := InsertByFreq(x, tail);
      HeadBoundsTail(sorted);
      AtMostPermutation(rest, tail, x, head.freq);
      PrependKeepsOrder(head, rest);
      [head] + rest
  }

  /** Sorting by descending frequency: one of the orders a sort that keys on
      the frequency column alone may produce. */
  function SortByFreq(rows: seq<Row>): (r: seq<Row>)
    ensures NonIncreasing(r)
    ensures multiset(r) == multiset(rows)
  {
    if rows == [] then []
    else
      var rest := SortByFreq(rows[1..]);
      assert rows == [rows[0]] + rows[1..];
      assert multiset(rows) == multiset(rows[1..]) + multiset{rows[0]};
      InsertByFreq(rows[0], rest)
  }

  /** The rows the script ranks before sorting: kept characters grouped
      case-sensitively and counted, then upper-cased. */
  function CountedRows(text: seq<char>): seq<Row> {
    UpperSymbols(GroupBySize(Kept(text)))
  }

  /** `rows` is a frequency table the script may produce for `text`: the
      counted rows in some order of non-increasing frequency. The order of
      rows of equal frequency is left open. */
  ghost predicate IsRankingOf(text: seq<char>, rows: seq<Row>) {
    multiset(rows) == multiset(CountedRows(text)) && NonIncreasing(rows)
  }

  /** The cipher ranking computed from `text`. */
  function CipherRows(text: seq<char>): (rows: seq<Row>)
    ensures IsRankingOf(text, rows)
  {
    SortByFreq(CountedRows(text))
  }


  /** Each counted row is an upper-cased kept character with its count. */
  lemma CountedRowOf(text: seq<char>, r: Row)
    requires r in CountedRows(text)
    ensures exists c :: c in Kept(text) && r == Row(Upper(c), Count(Kept(text), c))
  {
    var g := GroupBySize(Kept(text));
    var u := CountedRows(text);
    var i :| 0 <= i < |u| && u[i] == r;
    assert g[i] in g;
    var c := g[i].symbol;
    assert c in Kept(text) && r == Row(Upper(c), Count(Kept(text), c));
  }

  /** Each kept character has its counted row. */
  lemma CountedRowFor(text: seq<char>, c: char)
    requires c in Kept(text)
    ensures Row(Upper(c), Count(Kept(text), c)) in CountedRows(text)
  {
    var g := GroupBySize(Kept(text));
    assert Row(c, Count(Kept(text), c)) in g;
    var i :| 0 <= i < |g| && g[i] == Row(c, Count(Kept(text), c));
    assert CountedRows(text)[i] == Row(Upper(c), Count(Kept(text), c));
  }

  /** The rows of any ranking of `text` are exactly the counted rows: each
      one is an upper-cased kept character with that character's own
      occurrence count, and every kept character has its row. */
  lemma RankingRows(text: seq<char>, rows: seq<Row>)
    requires IsRankingOf(text, rows)
    ensures forall r :: r in rows <==> exists c :: c in Kept(text) && r == Row(Upper(c), Count(Kept(text), c))
  {
    forall r ensures r in rows <==> exists c :: c in Kept(text) && r == Row(Upper(c), Count(Kept(text), c)) {
      assert r in rows <==> r in multiset(CountedRows(text));
      if r in CountedRows(text) {
        CountedRowOf(text, r);
      }
      if c :| c in Kept(text) && r == Row(Upper(c), Count(Kept(text), c)) {
        CountedRowFor(text, c);
      }
    }
  }

  /** A ranking holds no ignored character, and every character of the text
      that is not ignored occurs in it upper-cased. */
  lemma RankingCoversText(text: seq<char>, rows: seq<Row>)
    requires IsRankingOf(text, rows)
    ensures forall i :: 0 <= i < |rows| ==> !IsIgnored(Symbols(rows)[i])
    ensures forall c :: c in text && !IsIgnored(c) ==> Upper(c) in Symbols(rows)
  {
    RankingRows(text, rows);
    forall i | 0 <= i < |rows| ensures !IsIgnored(Symbols(rows)[i]) {
      assert rows[i] in rows;
      var c :| c in Kept(text) && rows[i] == Row(Upper(c), Count(Kept(text), c));
      IgnoredAreUncased(c);
    }
    forall c | c in text && !IsIgnored(c) ensures Upper(c) in Symbols(rows) {
      assert Row(Upper(c), Count(Kept(text), c)) in rows;
      var i :| 0 <= i < |rows| && rows[i] == Row(Upper(c), Count(Kept(text), c));
      assert Symbols(rows)[i] == Upper(c);
    }
  }

  /** Two positions holding the same value make it occur at least twice. */
  lemma TwoIndicesCount<T>(s: seq<T>, i: nat, j: nat)
    requires i < j < |s| && s[i] == s[j]
    ensures multiset(s)[s[i]] >= 2
  {
    assert s == s[..i] + [s[i]] + s[i + 1..j] + [s[j]] + s[j + 1..];
  }

  /** A value that occurs at least twice stands at two positions. */
  lemma {:induction false} CountTwoIndices<T>(s: seq<T>, x: T)
    requires multiset(s)[x] >= 2
    ensures exists i, j :: 0 <= i < j < |s| && s[i] == x && s[j] == x
  {
    assert s == [s[0]] + s[1..];
    if s[0] == x {
      assert x in multiset(s[1..]);
      var k :| 0 <= k < |s[1..]| && s[1..][k] == x;
      assert s[k + 1] == x;
    } else {
      CountTwoIndices(s[1..], x);
      var i, j :| 0 <= i < j < |s[1..]| && s[1..][i] == x && s[1..][j] == x;
      assert s[i + 1] == x && s[j + 1] == x;
    }
  }

  /** Two distinct positions of a table with the same symbol stay two
      distinct positions with that symbol in any reordering of the table. */
  lemma SymbolTwiceInPermutation(u: seq<Row>, rows: seq<Row>, i1: nat, i2: nat)
    requires multiset(rows) == multiset(u)
    requires i1 < |u| && i2 < |u| && i1 != i2 && u[i1].symbol == u[i2].symbol
    ensures exists i, j :: 0 <= i < j < |rows| && rows[i].symbol == u[i1].symbol && rows[j].symbol == u[i1].symbol
  {
    if u[i1] == u[i2] {
      if i1 < i2 { TwoIndicesCount(u, i1, i2); } else { TwoIndicesCount(u, i2, i1); }
      CountTwoIndices(rows, u[i1]);
    } else {
      assert u[i1] in multiset(rows) && u[i2] in multiset(rows);
      var p :| 0 <= p < |rows| && rows[p] == u[i1];
      var q :| 0 <= q < |rows| && rows[q] == u[i2];
      if p < q {
        assert 0 <= p < q < |rows|;
      } else {
        assert 0 <= q < p < |rows|;
      }
    }
  }

  /** The counted rows of two case variants that both occur in the text sit
      at two distinct positions and carry the same upper-cased symbol. */
  lemma VariantsCountedApart(text: seq<char>, c1: char, c2: char) returns (i1: nat, i2: nat)
    requires c1 in text && !IsIgnored(c1) && c2 in text && !IsIgnored(c2)
    requires c1 != c2 && Upper(c1) == Upper(c2)
    ensures i1 < |CountedRows(text)| && i2 < |CountedRows(text)| && i1 != i2
    ensures CountedRows(text)[i1].symbol == Upper(c1) && CountedRows(text)[i2].symbol == Upper(c1)
  {
    var k := Kept(text);
    var g := GroupBySize(k);
    assert Row(c1, Count(k, c1)) in g && Row(c2, Count(k, c2)) in g;
    i1 :| 0 <= i1 < |g| && g[i1] == Row(c1, Count(k, c1));
    i2 :| 0 <= i2 < |g| && g[i2] == Row(c2, Count(k, c2));
  }

  /** Counting happens before upper-casing, so two case variants of one
      letter (`a` and `A`) that both occur in the text give two rows with
      the same upper-cased symbol: the letter occupies two ranks. */
  lemma CaseVariantsTakeTwoRanks(text: seq<char>, rows: seq<Row>, c1: char, c2: char)
    requires IsRankingOf(text, rows)
    requires c1 in text && !IsIgnored(c1) && c2 in text && !IsIgnored(c2)
    requires c1 != c2 && Upper(c1) == Upper(c2)
    ensures exists i, j :: 0 <= i < j < |rows| && Symbols(rows)[i] == Upper(c1) && Symbols(rows)[j] == Upper(c1)
  {
    var i1, i2 := VariantsCountedApart(text, c1, c2);
    SymbolTwiceInPermutation(CountedRows(text), rows, i1, i2);
    var i, j :| 0 <= i < j < |rows| && rows[i].symbol == Upper(c1) && rows[j].symbol == Upper(c1);
    assert Symbols(rows)[i] == Upper(c1) && Symbols(rows)[j] == Upper(c1);
  }

  /** The symbol column of the cipher ranking computed from `text`: it holds
      no ignored character and every character of the text that is not
      ignored occurs in it upper-cased, so the lookup of the decoding loop
      always finds its symbol. */
  function CipherRanking(text: seq<char>): (rank: seq<char>)
    ensures forall i :: 0 <= i < |rank| ==> !IsIgnored(rank[i])
    ensures forall c :: c in text && !IsIgnored(c) ==> Upper(c) in rank
  {
    RankingCoversText(text, CipherRows(text));
    Symbols(CipherRows(text))
  }
}
