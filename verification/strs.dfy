/** The parts of Go's `strings` and `strconv` packages the helpers rely on:
    joining, splitting and trimming with a one-character separator, prefix and
    substring tests, ASCII case mapping, and decimal conversion of integers. */
module Strs {
  import opened Common

  const MaxInt64: int := 0x7FFF_FFFF_FFFF_FFFF
  const MinInt64: int := -0x8000_0000_0000_0000

  // ---------------------------------------------------------------- strings.Join

  /** strings.Join: the parts with `sep` between consecutive ones. */
  function Join(parts: seq<string>, sep: string): string
  {
    if |parts| == 0 then ""
    else if |parts| == 1 then parts[0]
    else parts[0] + sep + Join(parts[1..], sep)
  }

  /** Appending one more part adds the separator and that part at the end. */
  lemma {:induction false} JoinSnoc(parts: seq<string>, p: string, sep: string)
    requires |parts| > 0
    ensures Join(parts + [p], sep) == Join(parts, sep) + sep + p
  {
    if |parts| == 1 {
      assert parts + [p] == [parts[0], p];
      assert ([parts[0], p])[1..] == [p];
    } else {
      assert (parts + [p])[1..] == parts[1..] + [p];
      JoinSnoc(parts[1..], p, sep);
    }
  }

  /** The joined string of a prefix of the parts is a prefix of the whole joined string. */
  lemma {:induction false} JoinPrefix(parts: seq<string>, k: nat, sep: string)
    requires k <= |parts|
    ensures Join(parts[..k], sep) <= Join(parts, sep)
  {
    if k == 0 {
    } else if k == |parts| {
      assert parts[..k] == parts;
    } else {
      assert parts[..k] == [parts[0]] + parts[1..][..k - 1];
      assert parts[1..] != [];
      JoinPrefix(parts[1..], k - 1, sep);
      if k == 1 {
        assert parts[..k] == [parts[0]];
      } else {
        assert parts[..k][1..] == parts[1..][..k - 1];
      }
    }
  }

  // --------------------------------------------------------------- strings.Split

  /** strings.Split with a one-character separator: the maximal runs between
      separators, so one part more than there are separators. */
  function Split(s: string, c: char): (parts: seq<string>)
    ensures |parts| >= 1
    decreases |s|
  {
    if s == [] then [""]
    else
      var rest := Split(s[1..], c);
      if s[0] == c then [""] + rest
      else [[s[0]] + rest[0]] + rest[1..]
  }

  /** No part holds the separator. */
  lemma {:induction false} SplitAvoids(s: string, c: char)
    ensures forall i :: 0 <= i < |Split(s, c)| ==> c !in Split(s, c)[i]
    decreases |s|
  {
    if s != [] {
      SplitAvoids(s[1..], c);
      var rest := Split(s[1..], c);
      if s[0] != c {
        assert c !in [s[0]] + rest[0];
        assert forall i :: 1 <= i < |rest| ==> rest[1..][i - 1] == rest[i];
      }
    }
  }

  /** Joining the parts back with the separator gives the original string. */
  lemma {:induction false} JoinSplit(s: string, c: char)
    ensures Join(Split(s, c), [c]) == s
    decreases |s|
  {
    if s != [] {
      var rest := Split(s[1..], c);
      JoinSplit(s[1..], c);
      if s[0] == c {
        assert ([""] + rest)[1..] == rest;
      } else {
        var parts := [[s[0]] + rest[0]] + rest[1..];
        if |rest| == 1 {
          assert parts == [[s[0]] + rest[0]];
        } else {
          assert parts[1..] == rest[1..];
          assert Join(rest, [c]) == rest[0] + [c] + Join(rest[1..], [c]);
        }
      }
    }
  }

  /** Splitting a joined list of separator-free parts gives the parts back. */
  lemma {:induction false} SplitJoin(parts: seq<string>, c: char)
    requires |parts| >= 1
    requires forall i :: 0 <= i < |parts| ==> c !in parts[i]
    ensures Split(Join(parts, [c]), c) == parts
    decreases |parts|, |parts[0]|
  {
    if parts[0] == [] {
      if |parts| == 1 {
      } else {
        assert Join(parts, [c]) == [c] + Join(parts[1..], [c]);
        SplitJoin(parts[1..], c);
        assert ([c] + Join(parts[1..], [c]))[1..] == Join(parts[1..], [c]);
        assert [""] + parts[1..] == parts;
      }
    } else {
      var head := parts[0];
      var shorter := [head[1..]] + parts[1..];
      assert c !in head[1..] by {
        assert forall ch :: ch in head[1..] ==> ch in head;
      }
      SplitJoin(shorter, c);
      var joined := Join(parts, [c]);
      if |parts| == 1 {
        assert joined == head;
        assert shorter == [head[1..]];
        assert Join(shorter, [c]) == head[1..];
        assert joined[1..] == head[1..];
      } else {
        assert shorter[1..] == parts[1..];
        assert joined == head + [c] + Join(parts[1..], [c]);
        assert Join(shorter, [c]) == head[1..] + [c] + Join(parts[1..], [c]);
        assert joined[1..] == Join(shorter, [c]);
      }
      assert joined[0] == head[0] && head[0] != c;
      var rest := Split(joined[1..], c);
      assert rest == shorter;
      assert head == [head[0]] + head[1..];
      assert [[head[0]] + head[1..]] + parts[1..] == parts;
    }
  }

  // ---------------------------------------------------------------- strings.Trim

  /** strings.TrimLeft with a one-character cutset. */
  function TrimLeft(s: string, c: char): (r: string)
    ensures |r| <= |s|
    ensures r == [] || r[0] != c
    ensures (s == [] || s[0] != c) ==> r == s
  {
    if s != [] && s[0] == c then TrimLeft(s[1..], c) else s
  }

  /** TrimLeft removes a run of `c` at the front and keeps the rest. */
  lemma {:induction false} TrimLeftSuffix(s: string, c: char)
    ensures var r := TrimLeft(s, c);
      r == s[|s| - |r|..] && forall i :: 0 <= i < |s| - |r| ==> s[i] == c
    decreases |s|
  {
    if s != [] && s[0] == c {
      TrimLeftSuffix(s[1..], c);
      var r := TrimLeft(s, c);
      assert forall i :: 1 <= i < |s| - |r| ==> s[i] == s[1..][i - 1];
    }
  }

  /** strings.TrimRight with a one-character cutset. */
  function TrimRight(s: string, c: char): (r: string)
    ensures |r| <= |s|
    ensures r == [] || r[|r| - 1] != c
    ensures (s == [] || s[|s| - 1] != c) ==> r == s
  {
    if s != [] && s[|s| - 1] == c then TrimRight(s[..|s| - 1], c) else s
  }

  /** TrimRight removes a run of `c` at the back and keeps the rest. */
  lemma {:induction false} TrimRightPrefix(s: string, c: char)
    ensures var r := TrimRight(s, c);
      r == s[..|r|] && forall i :: |r| <= i < |s| ==> s[i] == c
    decreases |s|
  {
    if s != [] && s[|s| - 1] == c {
      TrimRightPrefix(s[..|s| - 1], c);
    }
  }

  /** strings.Trim with a one-character cutset: strip `c` at both ends. */
  function Trim(s: string, c: char): (r: string)
    ensures |r| <= |s|
    ensures (s == [] || (s[0] != c && s[|s| - 1] != c)) ==> r == s
  {
    TrimRight(TrimLeft(s, c), c)
  }

  /** After Trim, neither end is `c`. */
  lemma TrimEnds(s: string, c: char)
    ensures var r := Trim(s, c);
      r == [] || (r[0] != c && r[|r| - 1] != c)
  {
    var left := TrimLeft(s, c);
    TrimRightPrefix(left, c);
  }

  // ------------------------------------------------- prefixes, substrings, case

  predicate HasPrefix(s: string, prefix: string)
  {
    |prefix| <= |s| && s[..|prefix|] == prefix
  }

  predicate HasSuffix(s: string, suffix: string)
  {
    |suffix| <= |s| && s[|s| - |suffix|..] == suffix
  }

  /** strings.Contains(s, sub). */
  predicate IsSubstring(sub: string, s: string)
    decreases |s|
  {
    HasPrefix(s, sub) || (s != [] && IsSubstring(sub, s[1..]))
  }

  predicate IsUpper(ch: char) { 'A' <= ch <= 'Z' }
  predicate IsLower(ch: char) { 'a' <= ch <= 'z' }

  function Lower(ch: char): (r: char)
    ensures !IsUpper(r)
    ensures !IsUpper(ch) ==> r == ch
  {
    if IsUpper(ch) then (ch as int - 'A' as int + 'a' as int) as char else ch
  }

  /** strings.ToLower on ASCII text. */
  function LowerStr(s: string): (r: string)
    ensures |r| == |s|
    ensures forall i :: 0 <= i < |s| ==> r[i] == Lower(s[i])
  {
    seq(|s|, i requires 0 <= i < |s| => Lower(s[i]))
  }

  // ---------------------------------------------------------- decimal integers

  predicate IsDigit(ch: char) { '0' <= ch <= '9' }

  predicate AllDigits(s: string) { forall i :: 0 <= i < |s| ==> IsDigit(s[i]) }

  function DigitChar(d: nat): (ch: char)
    requires d < 10
    ensures IsDigit(ch)
  {
    ('0' as int + d) as char
  }

  /** The number a string of decimal digits denotes. */
  function DigitsValue(s: string): nat
    requires AllDigits(s)
    decreases |s|
  {
    if s == [] then 0
    else DigitsValue(s[..|s| - 1]) * 10 + (s[|s| - 1] as int - '0' as int)
  }

  /** fmt.Sprint / %d of a non-negative integer. */
  function NatToString(n: nat): (r: string)
    ensures |r| >= 1 && AllDigits(r)
  {
    if n < 10 then [DigitChar(n)] else NatToString(n / 10) + [DigitChar(n % 10)]
  }

  /** fmt.Sprint / %d of an integer. */
  function IntToString(n: int): (r: string)
  {
    if n < 0 then "-" + NatToString(-n) else NatToString(n)
  }

  lemma {:induction false} NatToStringValue(n: nat)
    ensures DigitsValue(NatToString(n)) == n
  {
    if n >= 10 {
      var s := NatToString(n);
      assert s[..|s| - 1] == NatToString(n / 10);
      NatToStringValue(n / 10);
    }
  }

  /** strconv.Atoi: an optional sign and at least one decimal digit. A syntax error
      yields 0; a value outside int64 yields the nearest int64 bound; both come
      with the error. */
  function Atoi(s: string): (int, Option<NumError>)
  {
    var neg := |s| > 0 && s[0] == '-';
    var body := if |s| > 0 && (s[0] == '-' || s[0] == '+') then s[1..] else s;
    if body == [] || !AllDigits(body) then (0, Some(SyntaxError("Atoi", s)))
    else
      var d: int := DigitsValue(body);
      var v := if neg then -d else d;
      if v > MaxInt64 then (MaxInt64, Some(RangeError("Atoi", s)))
      else if v < MinInt64 then (MinInt64, Some(RangeError("Atoi", s)))
      else (v, None)
  }

  /** Atoi accepts exactly what IntToString prints for an int64, and gives the number back. */
  lemma AtoiIntToString(n: int)
    requires MinInt64 <= n <= MaxInt64
    ensures Atoi(IntToString(n)) == (n, None)
  {
    var s := IntToString(n);
    if n < 0 {
      NatToStringValue(-n);
      assert s[1..] == NatToString(-n);
    } else {
      NatToStringValue(n);
      assert s[0] != '-' && s[0] != '+' by { assert IsDigit(s[0]); }
    }
  }

  /** *NumError.Error(): `strconv.<fn>: parsing "<num>": <reason>`. */
  function NumErrorText(e: NumError): string
  {
    match e
    case SyntaxError(fn, num) => "strconv." + fn + ": parsing \"" + num + "\": invalid syntax"
    case RangeError(fn, num) => "strconv." + fn + ": parsing \"" + num + "\": value out of range"
  }
}
