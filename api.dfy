/**
  `sanitize_timestamps` of `api.py`: every quoted ISO 8601 timestamp in a JSON
  text whose fraction has fewer than six digits gets trailing zeros, so that
  the date-time parser downstream sees exactly six.

  The regular expression `timestamp_pattern` is written out as a scanner:
  `Match` says whether (and with how many fractional digits) the pattern
  matches at the start of a text, `Tokens` scans a text left to right the
  way `re.sub` does (a match is consumed and scanning resumes after it; the
  look-ahead is not consumed; elsewhere one character is copied), and
  `Sanitize` renders the tokens, a match followed by its zeros.
*/
module Api {
  import opened Wrappers

  // ------------------------------------------------------------ the pattern

  /** `\d`, restricted to ASCII digits. */
  predicate IsDigit(c: char) {
    '0' <= c <= '9'
  }

  /** The fixed part of the pattern, `"\d{4}-\d{2}-\d{2}T\d{2}:\d{2}:\d{2}\.`, with `d` standing for a digit. */
  const Template: string := "\"dddd-dd-ddTdd:dd:dd."

  /** Length of the fixed part; the fraction starts here. */
  const HeadLength: nat := 21

  predicate Fits(c: char, t: char) {
    if t == 'd' then IsDigit(c) else c == t
  }

  /** The text starts with the fixed part of the pattern. */
  predicate Head(x: string) {
    |Template| == HeadLength &&
    |x| >= HeadLength && forall i :: 0 <= i < HeadLength ==> Fits(x[i], Template[i])
  }

  /** The look-ahead `(?=Z"|[+-]\d{2}:\d{2}")` at position `i`. */
  predicate Lookahead(x: string, i: nat) {
    (i + 2 <= |x| && x[i] == 'Z' && x[i + 1] == '"') ||
    (i + 7 <= |x| && (x[i] == '+' || x[i] == '-') && IsDigit(x[i + 1]) && IsDigit(x[i + 2]) &&
     x[i + 3] == ':' && IsDigit(x[i + 4]) && IsDigit(x[i + 5]) && x[i + 6] == '"')
  }

  /** How many digits, at most `bound`, follow position `i`: the greedy first try of `\d{,5}`. */
  function DigitRun(x: string, i: nat, bound: nat): (r: nat)
    ensures r <= bound
    decreases bound
  {
    if bound == 0 || i >= |x| || !IsDigit(x[i]) then 0 else 1 + DigitRun(x, i + 1, bound - 1)
  }

  /** The regex engine's backtracking: `k` fractional digits, then `k - 1`, … down to none, until the look-ahead holds. */
  function Backtrack(x: string, k: nat): (r: Option<nat>)
    ensures r.Some? ==> r.value <= k && Lookahead(x, HeadLength + r.value)
  {
    if Lookahead(x, HeadLength + k) then Some(k)
    else if k == 0 then None
    else Backtrack(x, k - 1)
  }

  /** The number of fractional digits (group 1) when `timestamp_pattern` matches at the start of `x`. */
  function Match(x: string): (r: Option<nat>)
    ensures r.Some? ==> r.value <= 5 && HeadLength + r.value < |x|
  {
    if Head(x) then Backtrack(x, DigitRun(x, HeadLength, 5)) else None
  }

  // ------------------------------------------------------------ the substitution

  /** A piece of the scanned text: a character copied as it is, or a match with its fractional digit count. */
  datatype Token = Plain(c: char) | Stamp(text: string, digits: nat)

  /** `re.sub`'s scan: the leftmost match is consumed, scanning resumes after it; elsewhere one character is copied. */
  function Tokens(x: string): seq<Token>
    decreases |x|
  {
    if x == [] then []
    else match Match(x)
      case Some(k) => [Stamp(x[..HeadLength + k], k)] + Tokens(x[HeadLength + k..])
      case None => [Plain(x[0])] + Tokens(x[1..])
  }

  function Zeros(n: nat): (r: string)
    ensures |r| == n && forall i :: 0 <= i < n ==> r[i] == '0'
  {
    seq(n, _ => '0')
  }

  /** The zeros `add_zeroes` appends to a token. */
  function Padding(t: Token): nat {
    if t.Stamp? && t.digits <= 6 then 6 - t.digits else 0
  }

  /** The text a token was scanned from. */
  function Source(t: Token): string {
    match t
    case Plain(c) => [c]
    case Stamp(text, _) => text
  }

  /** `add_zeroes`: a match is replaced by itself and its zeros; a copied character stays. */
  function Render(t: Token): string {
    Source(t) + Zeros(Padding(t))
  }

  function Join(ts: seq<Token>, f: Token -> string): string
    decreases |ts|
  {
    if ts == [] then [] else f(ts[0]) + Join(ts[1..], f)
  }

  function TotalPadding(ts: seq<Token>): nat
    decreases |ts|
  {
    if ts == [] then 0 else Padding(ts[0]) + TotalPadding(ts[1..])
  }

  /** `sanitize_timestamps`: `re.sub` with `add_zeroes`, scanning as `Tokens` does. */
  function Sanitize(x: string): string
    decreases |x|
  {
    if x == [] then []
    else match Match(x)
      case Some(k) => x[..HeadLength + k] + Zeros(6 - k) + Sanitize(x[HeadLength + k..])
      case None => [x[0]] + Sanitize(x[1..])
  }

  // ------------------------------------------------------------ what a match is

  lemma {:induction false} DigitRunSpec(x: string, i: nat, bound: nat)
    requires i <= |x|
    ensures i + DigitRun(x, i, bound) <= |x|
    ensures forall j :: i <= j < i + DigitRun(x, i, bound) ==> IsDigit(x[j])
    ensures DigitRun(x, i, bound) < bound ==> i + DigitRun(x, i, bound) == |x| || !IsDigit(x[i + DigitRun(x, i, bound)])
    decreases bound
  {
    if !(bound == 0 || i >= |x| || !IsDigit(x[i])) {
      DigitRunSpec(x, i + 1, bound - 1);
    }
  }

  /** Backtracking into a run of digits fails: the look-ahead never starts with a digit. */
  lemma {:induction false} BacktrackInsideRun(x: string, k: nat, run: nat)
    requires k < run && forall j :: HeadLength <= j < HeadLength + run ==> HeadLength + run <= |x| && IsDigit(x[j])
    ensures Backtrack(x, k).None?
    decreases k
  {
    assert IsDigit(x[HeadLength + k]);
    if k > 0 {
      BacktrackInsideRun(x, k - 1, run);
    }
  }

  /**
    The pattern matches with `k` fractional digits exactly when the fixed part
    is there, followed by a run of exactly `k <= 5` digits and the look-ahead:
    backtracking never finds a shorter fraction.
  */
  lemma MatchIff(x: string, k: nat)
    ensures Match(x) == Some(k) <==>
      Head(x) && k <= 5 && HeadLength + k <= |x| &&
      (forall j :: HeadLength <= j < HeadLength + k ==> IsDigit(x[j])) &&
      (HeadLength + k == |x| || !IsDigit(x[HeadLength + k])) &&
      Lookahead(x, HeadLength + k)
  {
    if Head(x) {
      var run := DigitRun(x, HeadLength, 5);
      DigitRunSpec(x, HeadLength, 5);
      if run > 0 {
        BacktrackInsideRun(x, run - 1, run);
      }
      assert Backtrack(x, run) == if Lookahead(x, HeadLength + run) then Some(run) else None;
      if k < run {
        assert IsDigit(x[HeadLength + k]);
      }
    }
  }

  /** A timestamp that already has six fractional digits is not matched. */
  lemma SixDigitsNoMatch(x: string)
    requires |x| >= HeadLength + 6 && forall j :: HeadLength <= j < HeadLength + 6 ==> IsDigit(x[j])
    ensures Match(x).None?
  {
    if Head(x) {
      DigitRunSpec(x, HeadLength, 5);
      BacktrackInsideRun(x, 5, 6);
    }
  }

  // ------------------------------------------------------------ what the substitution does

  /** Scanning restores the text: the tokens' sources, in order, are the input. */
  lemma {:induction false} TokensRoundTrip(x: string)
    ensures Join(Tokens(x), Source) == x
    decreases |x|
  {
    if x != [] {
      var ts := Tokens(x);
      assert ts[1..] == Tokens(if Match(x).Some? then x[HeadLength + Match(x).value..] else x[1..]);
      match Match(x)
      case Some(k) =>
        TokensRoundTrip(x[HeadLength + k..]);
        assert x == x[..HeadLength + k] + x[HeadLength + k..];
      case None =>
        TokensRoundTrip(x[1..]);
        assert x == [x[0]] + x[1..];
    }
  }

  /**
    Every match the scan finds is a timestamp with at most five fractional
    digits, and its rendering has exactly six.
  */
  lemma {:induction false} StampsArePadded(x: string)
    ensures forall t :: t in Tokens(x) && t.Stamp? ==>
      Head(t.text) && t.digits <= 5 && |t.text| == HeadLength + t.digits &&
      (forall j :: HeadLength <= j < |t.text| ==> IsDigit(t.text[j])) &&
      |Render(t)| == HeadLength + 6 && (forall j :: HeadLength <= j < HeadLength + 6 ==> IsDigit(Render(t)[j]))
    decreases |x|
  {
    if x != [] {
      match Match(x)
      case Some(k) =>
        StampsArePadded(x[HeadLength + k..]);
        MatchIff(x, k);
        var t := Stamp(x[..HeadLength + k], k);
        assert Head(t.text) by {
          forall i | 0 <= i < HeadLength ensures Fits(t.text[i], Template[i]) {
            assert t.text[i] == x[i];
          }
        }
        assert forall j :: HeadLength <= j < HeadLength + 6 ==> Render(t)[j] == if j < HeadLength + k then x[j] else '0';
      case None =>
        StampsArePadded(x[1..]);
    }
  }

  lemma {:induction false} JoinRender(ts: seq<Token>)
    ensures |Join(ts, Render)| == |Join(ts, Source)| + TotalPadding(ts)
    ensures multiset(Join(ts, Render)) == multiset(Join(ts, Source)) + multiset(Zeros(TotalPadding(ts)))
    decreases |ts|
  {
    if ts != [] {
      JoinRender(ts[1..]);
      var z0 := Zeros(Padding(ts[0]));
      var z1 := Zeros(TotalPadding(ts[1..]));
      assert Zeros(TotalPadding(ts)) == z0 + z1;
    }
  }

  /**
    Only zeros are inserted: the output is as long as the input plus the
    padding of its matches, and it holds the input's characters plus that
    many `'0'`s.
  */
  lemma SanitizeAddsZeros(x: string)
    ensures |Sanitize(x)| == |x| + TotalPadding(Tokens(x))
    ensures multiset(Sanitize(x)) == multiset(x) + multiset(Zeros(TotalPadding(Tokens(x))))
  {
    JoinRender(Tokens(x));
    TokensRoundTrip(x);
    SanitizeRendersTokens(x);
  }

  /** The substitution is the rendering of the scanned tokens. */
  lemma {:induction false} SanitizeRendersTokens(x: string)
    ensures Sanitize(x) == Join(Tokens(x), Render)
    decreases |x|
  {
    if x != [] {
      var ts := Tokens(x);
      match Match(x)
      case Some(k) =>
        var rest := x[HeadLength + k..];
        assert ts == [Stamp(x[..HeadLength + k], k)] + Tokens(rest);
        assert ts[1..] == Tokens(rest);
        SanitizeRendersTokens(rest);
      case None =>
        assert ts[1..] == Tokens(x[1..]);
        SanitizeRendersTokens(x[1..]);
    }
  }

  /** A match starts with `"`. */
  lemma NoQuoteNoMatch(x: string)
    requires x == [] || x[0] != '"'
    ensures Match(x).None?
  {
    if x != [] {
      assert !Fits(x[0], Template[0]);
    }
  }

  /** The substitution leaves the first character in place. */
  lemma SanitizeFirst(x: string)
    requires x != []
    ensures Sanitize(x) != [] && Sanitize(x)[0] == x[0]
  {
  }

  /** How many characters come before the first `"`. */
  function QuoteFree(t: string): (r: nat)
    ensures r <= |t| && forall j :: 0 <= j < r ==> t[j] != '"'
    ensures r < |t| ==> t[r] == '"'
  {
    if t == [] || t[0] == '"' then 0 else 1 + QuoteFree(t[1..])
  }

  /** A stretch without `"` is copied as it is: no match starts there. */
  lemma {:induction false} SanitizeCopies(t: string, m: nat)
    requires m <= |t| && forall j :: 0 <= j < m ==> t[j] != '"'
    ensures Sanitize(t) == t[..m] + Sanitize(t[m..])
    decreases m
  {
    if m > 0 {
      NoQuoteNoMatch(t);
      SanitizeCopies(t[1..], m - 1);
      assert t[1..][m - 1..] == t[m..];
      assert t[..m] == [t[0]] + t[1..][..m - 1];
    }
  }

  /** The look-ahead at `i` reads nothing beyond the `"` at `m`. */
  lemma LookaheadWindow(a: string, b: string, i: nat, m: nat)
    requires i <= m < |a| && m < |b| && a[m] == '"' && forall j :: 0 <= j <= m ==> a[j] == b[j]
    ensures Lookahead(a, i) == Lookahead(b, i)
  {
  }

  /** Whether the pattern matches reads nothing beyond the first `"` after the opening one. */
  lemma MatchWindow(a: string, b: string, m: nat)
    requires 0 < m < |a| && m < |b| && a[m] == '"' && forall j :: 0 < j < m ==> a[j] != '"'
    requires forall j :: 0 <= j <= m ==> a[j] == b[j]
    ensures Match(a) == Match(b)
  {
    if m < HeadLength {
      assert !Fits(a[m], Template[m]) && !Fits(b[m], Template[m]);
    } else if Head(a) {
      assert Head(b) by {
        forall i | 0 <= i < HeadLength ensures Fits(b[i], Template[i]) {
          assert a[i] == b[i] && Fits(a[i], Template[i]);
        }
      }
      var ra := DigitRun(a, HeadLength, 5);
      var rb := DigitRun(b, HeadLength, 5);
      DigitRunSpec(a, HeadLength, 5);
      DigitRunSpec(b, HeadLength, 5);
      RunWindow(a, b, HeadLength, 5, m);
      BacktrackWindow(a, b, ra, m);
    } else {
      assert !Head(b) by {
        if Head(b) {
          forall i | 0 <= i < HeadLength ensures Fits(a[i], Template[i]) {
            assert a[i] == b[i] && Fits(b[i], Template[i]);
          }
        }
      }
    }
  }

  lemma {:induction false} RunWindow(a: string, b: string, i: nat, bound: nat, m: nat)
    requires i <= m < |a| && m < |b| && a[m] == '"' && forall j :: 0 <= j <= m ==> a[j] == b[j]
    ensures DigitRun(a, i, bound) == DigitRun(b, i, bound)
    decreases bound
  {
    if bound > 0 && i < m && IsDigit(a[i]) {
      RunWindow(a, b, i + 1, bound - 1, m);
    }
  }

  lemma {:induction false} BacktrackWindow(a: string, b: string, k: nat, m: nat)
    requires HeadLength + k <= m < |a| && m < |b| && a[m] == '"' && forall j :: 0 <= j <= m ==> a[j] == b[j]
    ensures Backtrack(a, k) == Backtrack(b, k)
    decreases k
  {
    LookaheadWindow(a, b, HeadLength + k, m);
    if k > 0 {
      BacktrackWindow(a, b, k - 1, m);
    }
  }

  /** Inside a padded timestamp there is no `"` after the opening one. */
  lemma StampInterior(x: string, k: nat)
    requires Match(x) == Some(k)
    ensures |Sanitize(x)| >= HeadLength + 6
    ensures forall q :: 0 < q < HeadLength + 6 ==> Sanitize(x)[q] != '"'
  {
    MatchIff(x, k);
    var out := Sanitize(x);
    forall q | 0 < q < HeadLength + 6 ensures out[q] != '"' {
      if q < HeadLength {
        assert out[q] == x[q] && Fits(x[q], Template[q]);
      } else if q < HeadLength + k {
        assert out[q] == x[q];
      } else {
        assert out[q] == '0';
      }
    }
  }

  /** No short timestamp starts the output. */
  lemma NoMatchAtStart(x: string)
    ensures Match(Sanitize(x)).None?
  {
    if x != [] {
      var out := Sanitize(x);
      match Match(x)
      case Some(k) =>
        MatchIff(x, k);
        assert forall j :: HeadLength <= j < HeadLength + 6 ==> out[j] == if j < HeadLength + k then x[j] else '0';
        SixDigitsNoMatch(out);
      case None =>
        if x[0] == '"' {
          var t := x[1..];
          var m := QuoteFree(t);
          SanitizeCopies(t, m);
          if m == |t| {
            assert t[m..] == [];
            assert out == x;
          } else {
            SanitizeFirst(t[m..]);
            MatchWindow(x, out, m + 1);
          }
        } else {
          SanitizeFirst(x);
          NoQuoteNoMatch(out);
        }
    }
  }

  /** The output holds no timestamp with fewer than six fractional digits anywhere. */
  lemma {:induction false} NoMatchInOutput(x: string)
    ensures forall q :: 0 <= q <= |Sanitize(x)| ==> Match(Sanitize(x)[q..]).None?
    decreases |x|
  {
    var out := Sanitize(x);
    NoMatchAtStart(x);
    if x != [] {
      match Match(x)
      case Some(k) =>
        var rest := x[HeadLength + k..];
        var n := HeadLength + 6;
        NoMatchInOutput(rest);
        StampInterior(x, k);
        assert out == x[..HeadLength + k] + Zeros(6 - k) + Sanitize(rest);
        forall q | 0 < q <= |out| ensures Match(out[q..]).None? {
          if q < n {
            NoQuoteNoMatch(out[q..]);
          } else {
            assert out[q..] == Sanitize(rest)[q - n..];
          }
        }
      case None =>
        NoMatchInOutput(x[1..]);
        forall q | 1 <= q <= |out| ensures Match(out[q..]).None? {
          assert out[q..] == Sanitize(x[1..])[q - 1..];
        }
    }
  }

  /** A text without a short timestamp anywhere comes back unchanged. */
  lemma {:induction false} UnchangedWithoutMatch(y: string)
    requires forall q :: 0 <= q <= |y| ==> Match(y[q..]).None?
    ensures Sanitize(y) == y
    decreases |y|
  {
    if y != [] {
      assert Match(y[0..]).None? && y[0..] == y;
      forall q | 0 <= q <= |y[1..]| ensures Match(y[1..][q..]).None? {
        assert y[1..][q..] == y[q + 1..];
      }
      UnchangedWithoutMatch(y[1..]);
    }
  }

  /** Sanitizing twice is sanitizing once. */
  lemma SanitizeIdempotent(x: string)
    ensures Sanitize(Sanitize(x)) == Sanitize(x)
  {
    NoMatchInOutput(x);
    UnchangedWithoutMatch(Sanitize(x));
  }

  // ------------------------------------------------------------ examples

  /** A one-digit fraction before `Z"` gets five zeros; the closing `Z"` is copied. */
  lemma ExamplePadded()
    ensures Sanitize("\"2024-03-01T12:30:00.5Z\"") == "\"2024-03-01T12:30:00.500000Z\""
  {
    var head := "\"2024-03-01T12:30:00.";
    var x := head + "5Z\"";
    assert Head(x) by {
      forall i | 0 <= i < HeadLength ensures Fits(x[i], Template[i]) {
        assert x[i] == head[i];
      }
    }
    assert x[HeadLength] == '5' && x[HeadLength + 1] == 'Z' && x[HeadLength + 2] == '"';
    MatchIff(x, 1);
    var tail := x[HeadLength + 1..];
    assert tail == "Z\"";
    NoQuoteNoMatch(tail);
    var quote := tail[1..];
    assert quote == "\"" && quote[1..] == [];
    assert Match(quote).None?;
    assert Sanitize(quote) == quote;
    assert Sanitize(tail) == [tail[0]] + Sanitize(quote);
    assert Zeros(5) == "00000";
    assert x[..HeadLength + 1] == head + "5";
    assert Sanitize(x) == head + "5" + "00000" + "Z\"";
    assert x == "\"2024-03-01T12:30:00.5Z\"";
    assert head + "5" + "00000" + "Z\"" == "\"2024-03-01T12:30:00.500000Z\"";
  }
}
