/** Decoding by rank matching: every character of the ciphertext that is
    not ignored is upper-cased, looked up in the cipher ranking, and
    replaced by the letter of the language table at the same rank, lower-cased
    again when the cipher character was lower-case. */
module Decoder {
  import opened Results
  import opened CaseMap
  import opened Ranking

  /** `rank[i]` is the first occurrence of `x` in `rank`. */
  predicate IsFirstAt(rank: seq<char>, x: char, i: nat) {
    i < |rank| && rank[i] == x && forall j :: 0 <= j < i ==> rank[j] != x
  }

  /** The position of the first row of the ranking whose symbol is `x`,
      or nothing when no row has it. */
  function FirstIndex(rank: seq<char>, x: char): (r: Option<nat>)
    ensures r.None? <==> x !in rank
    ensures r.Some? ==> IsFirstAt(rank, x, r.value)
  {
    if rank == [] then None
    else if rank[0] == x then Some(0)
    else match FirstIndex(rank[1..], x)
      case None => None
      case Some(i) => Some(i + 1)
  }

  /** Why a character cannot be decoded: its upper-cased form is not in the
      ranking, or its rank lies beyond the end of the language table. */
  datatype Failure = NotRanked(symbol: char) | OutsideTable(index: nat)

  /** The failure and the position of the character where decoding stops. */
  datatype DecodeError = DecodeError(position: nat, failure: Failure)

  /** The replacement letter with the case of the cipher character. */
  function MatchCase(cipher: char, plain: char): (r: char)
    ensures IsLower(cipher) ==> !IsUpper(r) && Upper(r) == Upper(plain)
    ensures !IsLower(cipher) ==> r == plain
  {
    CaseRoundTrip(plain);
    if IsLower(cipher) then Lower(plain) else plain
  }

  /** Decodes one character of the ciphertext. */
  function DecodeChar(rank: seq<char>, lang: seq<char>, c: char): (r: Result<char, Failure>)
    ensures IsIgnored(c) ==> r == Ok(c)
    ensures !IsIgnored(c) ==> (r == Err(NotRanked(Upper(c))) <==> Upper(c) !in rank)
    ensures !IsIgnored(c) && r.Ok? ==> Upper(c) in rank && (IsLower(c) ==> !IsUpper(r.value))
    ensures !IsIgnored(c) && r.Ok? && !IsLower(c) ==> r.value in lang
  {
    if IsIgnored(c) then Ok(c)
    else match FirstIndex(rank, Upper(c))
      case None => Err(NotRanked(Upper(c)))
      case Some(i) =>
        if i < |lang| then Ok(MatchCase(c, lang[i])) else Err(OutsideTable(i))
  }

  /** The substitution rule with the rank given explicitly: a character that
      is not ignored and whose upper-cased form first stands at rank `i`
      becomes `lang[i]` in its case, or fails when the table is too short. */
  lemma DecodeCharAtRank(rank: seq<char>, lang: seq<char>, c: char, i: nat)
    requires !IsIgnored(c) && IsFirstAt(rank, Upper(c), i)
    ensures i < |lang| ==> DecodeChar(rank, lang, c) == Ok(MatchCase(c, lang[i]))
    ensures i >= |lang| ==> DecodeChar(rank, lang, c) == Err(OutsideTable(i))
  {
    assert rank[i] == Upper(c);
  }

  /** Decodes the whole ciphertext, left to right; decoding stops at the
      first character that cannot be decoded. */
  function Decode(rank: seq<char>, lang: seq<char>, text: seq<char>): (r: Result<seq<char>, DecodeError>)
    ensures r.Ok? ==> |r.value| == |text|
    ensures r.Err? ==> r.error.position < |text|
    decreases |text|
  {
    if text == [] then Ok([])
    else
      var n := |text| - 1;
      match Decode(rank, lang, text[..n])
      case Err(e) => Err(e)
      case Ok(prefix) =>
        match DecodeChar(rank, lang, text[n])
        case Err(f) => Err(DecodeError(n, f))
        case Ok(d) => Ok(prefix + [d])
  }

  /** Decoding succeeds exactly when every character decodes, and then each
      output character is the decoding of the input character at the same
      position. */
  lemma {:induction false} DecodePointwise(rank: seq<char>, lang: seq<char>, text: seq<char>)
    ensures Decode(rank, lang, text).Ok? <==> forall k :: 0 <= k < |text| ==> DecodeChar(rank, lang, text[k]).Ok?
    ensures Decode(rank, lang, text).Ok? ==>
      forall k :: 0 <= k < |text| ==> DecodeChar(rank, lang, text[k]) == Ok(Decode(rank, lang, text).value[k])
    decreases |text|
  {
    if text != [] {
      var n := |text| - 1;
      var front := text[..n];
      DecodePointwise(rank, lang, front);
      assert forall k :: 0 <= k < n ==> front[k] == text[k];
    }
  }

  /** A failure reports the first character that cannot be decoded: every
      character before it decodes, and it fails with the reported reason. */
  lemma {:induction false} DecodeFailsAtFirst(rank: seq<char>, lang: seq<char>, text: seq<char>)
    requires Decode(rank, lang, text).Err?
    ensures var e := Decode(rank, lang, text).error;
      e.position < |text| &&
      DecodeChar(rank, lang, text[e.position]) == Err(e.failure) &&
      forall k :: 0 <= k < e.position ==> DecodeChar(rank, lang, text[k]).Ok?
    decreases |text|
  {
    var n := |text| - 1;
    var front := text[..n];
    assert forall k :: 0 <= k < n ==> front[k] == text[k];
    if Decode(rank, lang, front).Err? {
      DecodeFailsAtFirst(rank, lang, front);
    } else {
      DecodePointwise(rank, lang, front);
    }
  }

  /** Characters in the ignored set are copied through at their position. */
  lemma IgnoredPreserved(rank: seq<char>, lang: seq<char>, text: seq<char>, k: nat)
    requires Decode(rank, lang, text).Ok? && k < |text| && IsIgnored(text[k])
    ensures Decode(rank, lang, text).value[k] == text[k]
  {
    DecodePointwise(rank, lang, text);
  }

  /** Any other character at position `k` becomes the language letter at
      the rank where its upper-cased form first stands, in its own case. */
  lemma SubstitutedByRank(rank: seq<char>, lang: seq<char>, text: seq<char>, k: nat, i: nat)
    requires Decode(rank, lang, text).Ok? && k < |text| && !IsIgnored(text[k])
    requires IsFirstAt(rank, Upper(text[k]), i)
    ensures i < |lang|
    ensures Decode(rank, lang, text).value[k] == MatchCase(text[k], lang[i])
  {
    DecodePointwise(rank, lang, text);
    DecodeCharAtRank(rank, lang, text[k], i);
  }

  /** Equal ciphertext characters decode to equal characters wherever they
      stand. */
  lemma SameCipherSamePlain(rank: seq<char>, lang: seq<char>, text: seq<char>, i: nat, j: nat)
    requires Decode(rank, lang, text).Ok? && i < |text| && j < |text| && text[i] == text[j]
    ensures Decode(rank, lang, text).value[i] == Decode(rank, lang, text).value[j]
  {
    DecodePointwise(rank, lang, text);
  }

  /** With a ranking computed from the ciphertext itself every lookup finds
      its symbol, and when the language table has at least as many rows as
      the ranking the whole text decodes. */
  lemma FreshRankingDecodes(text: seq<char>, rows: seq<Row>, lang: seq<char>)
    requires IsRankingOf(text, rows)
    ensures Decode(Symbols(rows), lang, text).Err? ==> Decode(Symbols(rows), lang, text).error.failure.OutsideTable?
    ensures |rows| <= |lang| ==> Decode(Symbols(rows), lang, text).Ok?
  {
    var rank := Symbols(rows);
    RankingCoversText(text, rows);
    if Decode(rank, lang, text).Err? {
      DecodeFailsAtFirst(rank, lang, text);
      var e := Decode(rank, lang, text).error;
      assert text[e.position] in text;
    }
    if |rows| <= |lang| {
      forall k | 0 <= k < |text| ensures DecodeChar(rank, lang, text[k]).Ok? {
        assert text[k] in text;
        if !IsIgnored(text[k]) {
          var f := FirstIndex(rank, Upper(text[k]));
          assert f.Some?;
        }
      }
      DecodePointwise(rank, lang, text);
    }
  }

  /** When both case variants of a letter occur, the lookup lands on the
      more frequent of its two rows: the row found is at least as frequent
      as each variant's own count. */
  lemma LookupFindsMostFrequentVariant(text: seq<char>, rows: seq<Row>, c: char)
    requires IsRankingOf(text, rows) && c in text && !IsIgnored(c)
    ensures FirstIndex(Symbols(rows), Upper(c)).Some?
    ensures rows[FirstIndex(Symbols(rows), Upper(c)).value].freq >= Count(text, c)
  {
    var n := Count(Kept(text), c);
    assert c in Kept(text) && n == Count(text, c);
    CountedRowFor(text, c);
    assert Row(Upper(c), n) in multiset(rows);
    var j :| 0 <= j < |rows| && rows[j] == Row(Upper(c), n);
    FirstRowAtLeast(rows, Upper(c), j);
  }

  /** In a table ordered by non-increasing frequency, the first row with a
      symbol is at least as frequent as any other row with that symbol. */
  lemma FirstRowAtLeast(rows: seq<Row>, x: char, j: nat)
    requires NonIncreasing(rows) && j < |rows| && rows[j].symbol == x
    ensures FirstIndex(Symbols(rows), x).Some?
    ensures rows[FirstIndex(Symbols(rows), x).value].freq >= rows[j].freq
  {
    assert Symbols(rows)[j] == x;
    var i := FirstIndex(Symbols(rows), x).value;
    assert i <= j;
  }

  /** The decoding loop: walks the ciphertext once, copying ignored
      characters and appending the substitute of every other one to the
      text decoded so far; a failed lookup aborts the walk. */
  method DecryptText(rank: seq<char>, lang: seq<char>, text: seq<char>) returns (r: Result<seq<char>, DecodeError>)
    ensures r == Decode(rank, lang, text)
  {
    var decoded: seq<char> := [];
    var k := 0;
    while k < |text|
      invariant 0 <= k <= |text|
      invariant Decode(rank, lang, text[..k]) == Ok(decoded)
    {
      var letter := text[k];
      assert text[..k + 1][..k] == text[..k];
      if letter in IgnoreChars {
        decoded := decoded + [letter];
      } else {
        var upper := Upper(letter);
        var found := FirstIndex(rank, upper);
        if found.None? {
          r := Err(DecodeError(k, NotRanked(upper)));
          StopsAtFailure(rank, lang, text, k + 1);
          return;
        }
        var index := found.value;
        if index >= |lang| {
          r := Err(DecodeError(k, OutsideTable(index)));
          StopsAtFailure(rank, lang, text, k + 1);
          return;
        }
        var plain := lang[index];
        if IsLower(letter) {
          plain := Lower(plain);
        }
        decoded := decoded + [plain];
      }
      k := k + 1;
    }
    assert text[..k] == text;
    r := Ok(decoded);
  }

  /** Once a prefix of the text fails, the whole text fails with the same
      error. */
  lemma {:induction false} StopsAtFailure(rank: seq<char>, lang: seq<char>, text: seq<char>, m: nat)
    requires m <= |text| && Decode(rank, lang, text[..m]).Err?
    ensures Decode(rank, lang, text) == Decode(rank, lang, text[..m])
    decreases |text| - m
  {
    if m < |text| {
      assert text[..m + 1][..m] == text[..m];
      StopsAtFailure(rank, lang, text, m + 1);
    } else {
      assert text[..m] == text;
    }
  }
}
