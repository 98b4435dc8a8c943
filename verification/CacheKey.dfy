/**
 * The key under which the response to a query is cached: the query with the
 * seconds of its period blanked out, so that refreshing hits the same entry.
 */
module CacheKey {
  import opened Wrappers

  // In these patterns '#' stands for a digit and '?' for any character
  const HEAD := " AND datetime BETWEEN '####-##-##T##:##:"
  const MIDDLE := ".000Z' AND '####-##-##T##:##:"
  const END := ".000Z'"

  /** The whole period with both seconds fields left open. */
  const PERIOD := HEAD + "??" + MIDDLE + "??" + END

  const LENGTH: nat := 79
  const FIRST: nat := 40
  const SECOND: nat := 71

  predicate Digit(c: char) {
    '0' <= c <= '9'
  }

  predicate Fits(c: char, p: char) {
    if p == '#' then Digit(c) else p == '?' || c == p
  }

  /** The four characters that hold seconds, counted from the start of the period. */
  predicate Seconds(i: int) {
    i == FIRST || i == FIRST + 1 || i == SECOND || i == SECOND + 1
  }

  /** The pattern of the period, position by position. */
  function Pattern(i: nat): char
    requires i < LENGTH
  {
    PeriodLength();
    PERIOD[i]
  }

  lemma PeriodLength()
    ensures |PERIOD| == LENGTH
  {
  }

  // The texts of the period between its dates
  const MINUTE := "####-##-##T##:##:"
  const BETWEEN := " AND datetime BETWEEN '"
  const UNTIL := ".000Z' AND '"
  const CLOSE := ".000Z'"

  /** The pattern, piece by piece. */
  lemma PatternPieces()
    ensures forall i: nat | i < 23 :: Pattern(i) == BETWEEN[i]
    ensures forall i: nat | i < 17 :: Pattern(23 + i) == MINUTE[i]
    ensures Pattern(40) == '?' == Pattern(41) && Pattern(71) == '?' == Pattern(72)
    ensures forall i: nat | i < 12 :: Pattern(42 + i) == UNTIL[i]
    ensures forall i: nat | i < 17 :: Pattern(54 + i) == MINUTE[i]
    ensures forall i: nat | i < 6 :: Pattern(73 + i) == CLOSE[i]
  {
  }

  // ---------- the regular expression ----------

  predicate PeriodAt(s: string, p: nat) {
    p + LENGTH <= |s| && forall i: nat | i < LENGTH :: Fits(s[p + i], Pattern(i))
  }

  const LIMIT := " LIMIT "

  /** An optional offset with its comma, then the rowcount; both may be empty. */
  predicate Numbers(r: string) {
    && (forall i | 0 <= i < |r| :: Digit(r[i]) || r[i] == ',')
    && (forall i, j | 0 <= i < j < |r| :: r[i] != ',' || r[j] != ',')
  }

  predicate LimitTail(t: string) {
    t == [] || (|t| >= 7 && t[..7] == LIMIT && Numbers(t[7..]))
  }

  /** A period at p, followed by at most a LIMIT up to the end of the query. */
  predicate Shaped(s: string, p: nat) {
    PeriodAt(s, p) && LimitTail(s[p + LENGTH..])
  }

  predicate SecondsAreDigits(s: string, p: nat)
    requires p + LENGTH <= |s|
  {
    Digit(s[p + FIRST]) && Digit(s[p + FIRST + 1]) && Digit(s[p + SECOND]) && Digit(s[p + SECOND + 1])
  }

  predicate Matches(s: string, p: nat) {
    Shaped(s, p) && SecondsAreDigits(s, p)
  }

  /** The first match at or after `from`. */
  function Find(s: string, from: nat): Option<nat>
    decreases |s| - from
  {
    if from >= |s| then None
    else if Matches(s, from) then Some(from)
    else Find(s, from + 1)
  }

  /** The cache key: the match with ".." for both seconds fields. */
  function Key(s: string): (r: string)
    ensures |r| == |s|
  {
    FindMatches(s, 0);
    match Find(s, 0)
    case None => s
    case Some(p) => s[..p + FIRST] + ".." + s[p + FIRST + 2..p + SECOND] + ".." + s[p + SECOND + 2..]
  }

  lemma {:induction false} FindMatches(s: string, from: nat)
    ensures Find(s, from).Some? ==> Matches(s, Find(s, from).value)
    ensures Find(s, from).None? ==> forall p: nat | from <= p :: !Matches(s, p)
    decreases |s| - from
  {
    if from < |s| && !Matches(s, from) {
      FindMatches(s, from + 1);
    }
  }

  // ---------- there is only one place to match ----------

  /** A period begins with " AND d". */
  lemma Beginning(s: string, p: nat, i: nat)
    requires PeriodAt(s, p) && i < 6
    ensures s[p + i] == " AND d"[i]
  {
    FirstCharacters();
    assert Fits(s[p + i], Pattern(i));
  }

  lemma FirstCharacters()
    ensures forall i: nat | i < 6 :: Pattern(i) == " AND d"[i]
  {
  }

  /** After a space the period goes on for at least five characters. */
  lemma SpacesNotLast(d: nat)
    requires 0 < d < LENGTH && Fits(' ', Pattern(d))
    ensures d + 5 < LENGTH
  {
  }

  /** Nowhere else inside a period can a space be followed by "AND d". */
  lemma NoSecondBeginning(d: nat)
    requires 0 < d && d + 5 < LENGTH && Fits(' ', Pattern(d))
    ensures !Fits('A', Pattern(d + 1)) || !Fits('N', Pattern(d + 2)) || !Fits('d', Pattern(d + 5))
  {
    SpacePlaces(d);
    AfterSpaces();
    hide Pattern;
  }

  /** Where a space fits: at the spaces of the period and at its seconds. */
  lemma SpacePlaces(d: nat)
    requires 0 < d && d + 5 < LENGTH && Fits(' ', Pattern(d))
    ensures d in {4, 13, 21, 40, 41, 48, 52, 71, 72}
  {
    PatternPieces();
    hide Pattern;
    assert Pattern(73 + 0) == CLOSE[0];
    if d < 23 {
      assert BETWEEN[d] == ' ';
    } else if d < 40 {
      assert Pattern(23 + (d - 23)) == MINUTE[d - 23];
      NoSpaceInMinute(d - 23);
    } else if 42 <= d < 54 {
      assert Pattern(42 + (d - 42)) == UNTIL[d - 42];
    } else if 54 <= d < 71 {
      assert Pattern(54 + (d - 54)) == MINUTE[d - 54];
      NoSpaceInMinute(d - 54);
    }
  }

  lemma NoSpaceInMinute(i: nat)
    requires i < 17
    ensures !Fits(' ', MINUTE[i])
  {
  }

  /** What stands behind these places. */
  lemma AfterSpaces()
    ensures Pattern(5) == 'd' && Pattern(14) == 'B' && Pattern(22) == '\'' && Pattern(53) == '\''
    ensures Pattern(42) == '.' && Pattern(73) == '.'
  {
    PatternPieces();
    hide Pattern;
    assert Pattern(42 + 0) == UNTIL[0] && Pattern(42 + 11) == UNTIL[11] && Pattern(73 + 0) == CLOSE[0];
  }

  lemma PeriodFits(s: string, p: nat, i: nat, c: char)
    requires PeriodAt(s, p) && i < LENGTH && s[p + i] == c
    ensures Fits(c, Pattern(i))
  {
  }

  lemma TailHasNoLetterA(t: string, i: nat)
    requires LimitTail(t) && i < |t|
    ensures t[i] != 'A'
  {
    if i < 7 {
      assert t[i] == LIMIT[i];
    } else {
      assert t[i] == t[7..][i - 7];
    }
  }

  /** No period begins inside another one. */
  lemma NotInside(s: string, p: nat, d: nat)
    requires PeriodAt(s, p) && 0 < d < LENGTH && p + d + 5 < |s|
    ensures s[p + d] == ' ' ==> d + 5 < LENGTH && (s[p + d + 1] != 'A' || s[p + d + 2] != 'N' || s[p + d + 5] != 'd')
  {
    if s[p + d] == ' ' {
      PeriodFits(s, p, d, ' ');
      hide Pattern;
      SpacesNotLast(d);
      NoSecondBeginning(d);
      if s[p + d + 1] == 'A' { PeriodFits(s, p, d + 1, 'A'); }
      if s[p + d + 2] == 'N' { PeriodFits(s, p, d + 2, 'N'); }
      if s[p + d + 5] == 'd' { PeriodFits(s, p, d + 5, 'd'); }
    }
  }

  /** No period begins behind another one. */
  lemma NotBehind(s: string, p: nat, q: nat)
    requires Shaped(s, p) && p + LENGTH <= q && q + 1 < |s|
    ensures s[q + 1] != 'A'
  {
    TailHasNoLetterA(s[p + LENGTH..], q + 1 - (p + LENGTH));
  }

  lemma OnlyPlace(s: string, p: nat, q: nat)
    requires Shaped(s, p) && Shaped(s, q) && p <= q
    ensures p == q
  {
    if p < q {
      hide Pattern, LimitTail;
      if q - p < LENGTH {
        NotInside(s, p, q - p);
        hide PeriodAt;
        BeginsLikePeriod(s, q);
      } else {
        NotBehind(s, p, q);
        hide PeriodAt;
        BeginsLikePeriod(s, q);
      }
    }
  }

  lemma BeginsLikePeriod(s: string, q: nat)
    requires PeriodAt(s, q)
    ensures q + 5 < |s| && s[q] == ' ' && s[q + 1] == 'A' && s[q + 2] == 'N' && s[q + 5] == 'd'
  {
    Beginning(s, q, 0);
    Beginning(s, q, 1);
    Beginning(s, q, 2);
    Beginning(s, q, 5);
  }

  // ---------- what the key forgets ----------

  /** Equal but for the seconds of the period that starts at p. */
  predicate SameButSeconds(a: string, b: string, p: nat) {
    |a| == |b| && forall i | 0 <= i < |a| :: Seconds(i - p) || a[i] == b[i]
  }

  /** The key keeps every character but the seconds, which become dots. */
  lemma KeyCharacters(s: string, p: nat)
    requires Matches(s, p)
    ensures forall i | 0 <= i < |s| :: Key(s)[i] == if Seconds(i - p) then '.' else s[i]
  {
    FindMatches(s, 0);
    OnlyPlaceEither(s, p, Find(s, 0).value);
  }

  lemma OnlyPlaceEither(s: string, p: nat, q: nat)
    requires Shaped(s, p) && Shaped(s, q)
    ensures p == q
  {
    if p <= q { OnlyPlace(s, p, q); } else { OnlyPlace(s, q, p); }
  }

  /** Changing seconds changes neither where the period is nor what follows it. */
  lemma ShapeKept(a: string, b: string, p: nat)
    requires Shaped(a, p) && SameButSeconds(a, b, p)
    ensures Shaped(b, p)
  {
    forall i: nat | i < LENGTH ensures Fits(b[p + i], Pattern(i)) {
      assert Fits(a[p + i], Pattern(i));
      SecondsOpen(i);
      assert Seconds(p + i - p) || a[p + i] == b[p + i];
    }
    assert a[p + LENGTH..] == b[p + LENGTH..];
  }

  lemma SecondsOpen(i: nat)
    requires i < LENGTH
    ensures Seconds(i) ==> Pattern(i) == '?'
  {
  }

  lemma KeyShaped(s: string, p: nat)
    requires Matches(s, p)
    ensures SameButSeconds(s, Key(s), p) && Shaped(Key(s), p)
    ensures !SecondsAreDigits(Key(s), p)
  {
    KeyCharacters(s, p);
    ShapeKept(s, Key(s), p);
  }

  /** Taking the key of a key changes nothing. */
  lemma KeyIdempotent(s: string)
    ensures Key(Key(s)) == Key(s)
  {
    FindMatches(s, 0);
    if Find(s, 0).Some? {
      var p := Find(s, 0).value;
      KeyShaped(s, p);
      FindMatches(Key(s), 0);
      if Find(Key(s), 0).Some? {
        OnlyPlaceEither(Key(s), p, Find(Key(s), 0).value);
      }
    }
  }

  /** Two queries over a period share a key iff they differ in their seconds only. */
  lemma KeysSharedExactly(a: string, p: nat, b: string, q: nat)
    requires Matches(a, p) && Matches(b, q)
    ensures Key(a) == Key(b) <==> SameButSeconds(a, b, p)
  {
    KeyShaped(a, p);
    KeyShaped(b, q);
    KeyCharacters(a, p);
    KeyCharacters(b, q);
    if Key(a) == Key(b) {
      OnlyPlaceEither(Key(a), p, q);
    }
    if SameButSeconds(a, b, p) {
      ShapeKept(a, b, p);
      OnlyPlaceEither(b, p, q);
      assert forall i | 0 <= i < |a| :: Key(a)[i] == Key(b)[i];
    }
  }

  // ---------- queries as they are written ----------

  /** A date and a time up to the minute, like 2020-12-31T23:59: with its last colon. */
  predicate Minute(m: string) {
    |m| == 17 && forall i | 0 <= i < 17 ::
      if i == 4 || i == 7 then m[i] == '-'
      else if i == 10 then m[i] == 'T'
      else if i == 13 || i == 16 then m[i] == ':'
      else '0' <= m[i] <= '9'
  }

  predicate AllDigits(s: string) {
    forall i | 0 <= i < |s| :: '0' <= s[i] <= '9'
  }

  /** Nothing, or a LIMIT with a rowcount and perhaps an offset. */
  predicate LimitText(t: string, offset: string, rowcount: string) {
    && AllDigits(offset) && AllDigits(rowcount)
    && (t == "" || t == " LIMIT " + rowcount || t == " LIMIT " + (offset + "," + rowcount))
  }

  function Period(a: string, x: string, b: string, y: string): string {
    BETWEEN + a + x + (UNTIL + b) + y + CLOSE
  }

  lemma MinuteFits(m: string, i: nat)
    requires Minute(m) && i < 17
    ensures Fits(m[i], MINUTE[i])
  {
  }

  lemma PeriodPieces(a: string, x: string, b: string, y: string)
    requires |a| == |b| == 17 && |x| == |y| == 2
    ensures var s := Period(a, x, b, y);
            && |s| == 79
            && s[..23] == BETWEEN && s[23..40] == a && s[40..42] == x
            && s[42..54] == UNTIL && s[54..71] == b && s[71..73] == y && s[73..] == CLOSE
  {
  }

  lemma PeriodFitsPattern(a: string, x: string, b: string, y: string, i: nat)
    requires Minute(a) && Minute(b) && |x| == |y| == 2 && i < 79
    ensures |Period(a, x, b, y)| == 79 && Fits(Period(a, x, b, y)[i], Pattern(i))
  {
    PatternPieces();
    PeriodPieces(a, x, b, y);
    hide Pattern, Period;
    var s := Period(a, x, b, y);
    if i < 23 {
      assert s[i] == s[..23][i];
    } else if i < 40 {
      assert s[i] == s[23..40][i - 23] && Pattern(23 + (i - 23)) == MINUTE[i - 23];
      MinuteFits(a, i - 23);
    } else if i < 42 {
    } else if i < 54 {
      assert s[i] == s[42..54][i - 42] && Pattern(42 + (i - 42)) == UNTIL[i - 42];
    } else if i < 71 {
      assert s[i] == s[54..71][i - 54] && Pattern(54 + (i - 54)) == MINUTE[i - 54];
      MinuteFits(b, i - 54);
    } else if i < 73 {
    } else {
      assert s[i] == s[73..][i - 73] && Pattern(73 + (i - 73)) == CLOSE[i - 73];
    }
  }

  lemma LimitTextMatches(t: string, offset: string, rowcount: string)
    requires LimitText(t, offset, rowcount)
    ensures LimitTail(t)
  {
    if t == " LIMIT " + rowcount {
      assert t[..7] == LIMIT && t[7..] == rowcount;
    } else if t != "" {
      assert t[..7] == LIMIT && t[7..] == offset + "," + rowcount;
    }
  }

  /**
   * Any query that ends with a period and perhaps a LIMIT is cached under the same
   * text with dots for the seconds.
   */
  lemma KeyWritten(before: string, a: string, x: string, b: string, y: string, t: string,
                   offset: string, rowcount: string)
    requires Minute(a) && Minute(b) && LimitText(t, offset, rowcount)
    requires |x| == |y| == 2 && AllDigits(x) && AllDigits(y)
    ensures Key(before + Period(a, x, b, y) + t) == before + Period(a, "..", b, "..") + t
  {
    var s, p := before + Period(a, x, b, y) + t, |before|;
    PeriodPieces(a, x, b, y);
    PeriodPieces(a, "..", b, "..");
    LimitTextMatches(t, offset, rowcount);
    hide Pattern, Period;
    assert s[p..p + 79] == Period(a, x, b, y) && s[p + 79..] == t;
    forall i: nat | i < LENGTH ensures Fits(s[p + i], Pattern(i)) {
      PeriodFitsPattern(a, x, b, y, i);
      assert s[p + i] == Period(a, x, b, y)[i];
    }
    assert Matches(s, p) by { SecondsRead(s, p, a, x, b, y); }
    KeyOfMatch(s, p);
    KeyJoined(before, a, x, b, y, t);
  }

  lemma SecondsRead(s: string, p: nat, a: string, x: string, b: string, y: string)
    requires |a| == |b| == 17 && |x| == |y| == 2 && AllDigits(x) && AllDigits(y)
    requires p + 79 <= |s| && s[p..p + 79] == Period(a, x, b, y)
    ensures SecondsAreDigits(s, p)
  {
    PeriodPieces(a, x, b, y);
    hide Period;
    var q := s[p..p + 79];
    assert q[40] == q[40..42][0] && q[41] == q[40..42][1] && q[71] == q[71..73][0] && q[72] == q[71..73][1];
  }

  lemma KeyOfMatch(s: string, p: nat)
    requires Matches(s, p)
    ensures Key(s) == s[..p + 40] + ".." + s[p + 42..p + 71] + ".." + s[p + 73..]
  {
    FindMatches(s, 0);
    OnlyPlaceEither(s, p, Find(s, 0).value);
  }

  lemma KeyJoined(before: string, a: string, x: string, b: string, y: string, t: string)
    requires |a| == |b| == 17 && |x| == |y| == 2
    ensures var s, p := before + Period(a, x, b, y) + t, |before|;
            && |s| == p + 79 + |t|
            && s[..p + 40] + ".." + s[p + 42..p + 71] + ".." + s[p + 73..] == before + Period(a, "..", b, "..") + t
  {
    var s, p := before + Period(a, x, b, y) + t, |before|;
    assert s[..p + 40] == before + (BETWEEN + a);
    assert s[p + 42..p + 71] == UNTIL + b;
    assert s[p + 73..] == CLOSE + t;
  }
}
