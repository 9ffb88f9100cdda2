/** Small helpers of util/misc.go: camel-case to snake-case conversion (two
    variants), bracket and default tests, the key ToStr gives a value, index
    selection, and the header/column pivot of a parsed CSV file. Case tests are
    ASCII; a Go string's bytes are the characters here. */
module Misc {
  import opened Common
  import Strs
  import Values

  // ---------------------------------------------------------------- CamelToSnake

  /** What CamelToSnake writes for the character at a position: an underscore
      before an upper-case letter that is not first, then the lower-cased letter. */
  function SnakePiece(ch: char, first: bool): string
  {
    (if Strs.IsUpper(ch) && !first then "_" else "") + [Strs.Lower(ch)]
  }

  /** The snake-case text of `s`, piece by piece. */
  function Snake(s: string): (r: string)
    decreases |s|
  {
    if s == [] then "" else Snake(s[..|s| - 1]) + SnakePiece(s[|s| - 1], |s| == 1)
  }

  /** How many characters of `s` are upper-case. */
  function UpperCount(s: string): nat
  {
    if s == [] then 0 else (if Strs.IsUpper(s[0]) then 1 else 0) + UpperCount(s[1..])
  }

  lemma {:induction false} UpperCountSnoc(s: string, ch: char)
    ensures UpperCount(s + [ch]) == UpperCount(s) + (if Strs.IsUpper(ch) then 1 else 0)
    decreases |s|
  {
    if s == [] {
      assert s + [ch] == [ch];
    } else {
      assert (s + [ch])[1..] == s[1..] + [ch];
      UpperCountSnoc(s[1..], ch);
    }
  }

  /** The snake-case text has no upper-case letter, and is longer than the input by
      one underscore per upper-case letter after the first character. */
  lemma {:induction false} SnakeShape(s: string)
    ensures forall k :: 0 <= k < |Snake(s)| ==> !Strs.IsUpper(Snake(s)[k])
    ensures s != [] ==> |Snake(s)| == |s| + UpperCount(s[1..])
    decreases |s|
  {
    if s != [] {
      var init := s[..|s| - 1];
      SnakeShape(init);
      var piece := SnakePiece(s[|s| - 1], |s| == 1);
      assert forall k :: 0 <= k < |piece| ==> !Strs.IsUpper(piece[k]);
      if |s| > 1 {
        assert s[1..] == init[1..] + [s[|s| - 1]];
        UpperCountSnoc(init[1..], s[|s| - 1]);
      }
    }
  }

  /** A lower-case word with no underscore is its own snake-case form. */
  lemma {:induction false} SnakeOfLower(s: string)
    requires forall k :: 0 <= k < |s| ==> !Strs.IsUpper(s[k])
    ensures Snake(s) == s
    decreases |s|
  {
    if s != [] {
      SnakeOfLower(s[..|s| - 1]);
      assert s == s[..|s| - 1] + [s[|s| - 1]];
    }
  }

  /** CamelToSnake, writing piece after piece into a builder. */
  method CamelToSnake(s: string) returns (r: string)
    ensures r == Snake(s)
    ensures forall k :: 0 <= k < |r| ==> !Strs.IsUpper(r[k])
    ensures s != [] ==> |r| == |s| + UpperCount(s[1..])
  {
    r := "";
    var i := 0;
    while i < |s|
      invariant 0 <= i <= |s|
      invariant r == Snake(s[..i])
    {
      if Strs.IsUpper(s[i]) && i > 0 {
        r := r + "_";
      }
      r := r + [Strs.Lower(s[i])];
      assert s[..i + 1][..i] == s[..i];
      i := i + 1;
    }
    assert s[..i] == s;
    SnakeShape(s);
  }

  // ---------------------------------------------- CamelToSnake2 / findNextGroup

  /** Whether a group of `s` ends before position j: for an upper-led group, at an
      upper-case letter right after a lower-case one (so acronyms stay together);
      for any other group, at the first upper-case letter. */
  predicate GroupBoundary(s: string, j: nat)
    requires 0 < j < |s|
  {
    if Strs.IsUpper(s[0]) then Strs.IsUpper(s[j]) && Strs.IsLower(s[j - 1]) else Strs.IsUpper(s[j])
  }

  /** The first boundary at or after j, or |s| when there is none. */
  function BoundaryFrom(s: string, j: nat): (n: nat)
    requires 0 < j <= |s|
    ensures j <= n <= |s|
    ensures n < |s| ==> GroupBoundary(s, n)
    ensures forall k :: j <= k < n ==> !GroupBoundary(s, k)
    decreases |s| - j
  {
    if j == |s| then |s| else if GroupBoundary(s, j) then j else BoundaryFrom(s, j + 1)
  }

  /** The length of the first group of `s`: 0 for "", otherwise the first boundary. */
  function GroupEnd(s: string): (n: nat)
    ensures s != [] ==> 1 <= n <= |s|
    ensures s == [] ==> n == 0
  {
    if s == [] then 0 else BoundaryFrom(s, 1)
  }

  /** findNextGroup: the first group of `s` and its length, found by scanning for
      the first boundary. */
  method FindNextGroup(s: string) returns (group: string, n: nat)
    ensures n == GroupEnd(s) && group == s[..n]
    ensures s != [] ==> 1 <= n
    ensures forall k :: 0 < k < n ==> !GroupBoundary(s, k)
    ensures 0 < n < |s| ==> GroupBoundary(s, n)
  {
    if |s| == 0 {
      return "", 0;
    }
    var right := -1;
    var i := 1;
    while i < |s|
      invariant 1 <= i <= |s|
      invariant right == -1
      invariant forall k :: 1 <= k < i ==> !GroupBoundary(s, k)
      decreases |s| - i
    {
      if GroupBoundary(s, i) {
        BoundaryFromFirst(s, 1, i);
        right := i;
        break;
      }
      i := i + 1;
    }
    if right < 0 {
      BoundaryFromNone(s, 1);
      right := |s|;
    }
    n := right;
    group := s[..n];
  }

  /** The first boundary is the one found when all earlier positions are not boundaries. */
  lemma {:induction false} BoundaryFromFirst(s: string, j: nat, b: nat)
    requires 0 < j <= b < |s|
    requires GroupBoundary(s, b)
    requires forall k :: j <= k < b ==> !GroupBoundary(s, k)
    ensures BoundaryFrom(s, j) == b
    decreases b - j
  {
    if j < b {
      BoundaryFromFirst(s, j + 1, b);
    }
  }

  /** With no boundary at all, the group is the whole string. */
  lemma {:induction false} BoundaryFromNone(s: string, j: nat)
    requires 0 < j <= |s|
    requires forall k :: j <= k < |s| ==> !GroupBoundary(s, k)
    ensures BoundaryFrom(s, j) == |s|
    decreases |s| - j
  {
    if j < |s| {
      BoundaryFromNone(s, j + 1);
    }
  }

  /** The groups CamelToSnake2 cuts `s` into, left to right. */
  function Groups(s: string): (gs: seq<string>)
    decreases |s|
  {
    if s == [] then [] else [s[..GroupEnd(s)]] + Groups(s[GroupEnd(s)..])
  }

  /** The concatenation of a list of strings. */
  function Concat(gs: seq<string>): string
  {
    if gs == [] then "" else gs[0] + Concat(gs[1..])
  }

  lemma {:induction false} ConcatSnoc(gs: seq<string>, g: string)
    ensures Concat(gs + [g]) == Concat(gs) + g
    decreases |gs|
  {
    if gs == [] {
      assert gs + [g] == [g];
    } else {
      assert (gs + [g])[1..] == gs[1..] + [g];
      ConcatSnoc(gs[1..], g);
    }
  }

  /** The groups put back together give the input: no character is dropped or repeated. */
  lemma {:induction false} GroupsConcat(s: string)
    ensures Concat(Groups(s)) == s
    decreases |s|
  {
    if s != [] {
      GroupsConcat(s[GroupEnd(s)..]);
      assert s[..GroupEnd(s)] + s[GroupEnd(s)..] == s;
    }
  }

  /** The lower-cased groups, in order. */
  function LowerAll(gs: seq<string>): (r: seq<string>)
    ensures |r| == |gs|
    ensures forall k :: 0 <= k < |r| ==> r[k] == Strs.LowerStr(gs[k])
  {
    seq(|gs|, k requires 0 <= k < |gs| => Strs.LowerStr(gs[k]))
  }

  lemma LowerAllSnoc(gs: seq<string>, g: string)
    ensures LowerAll(gs + [g]) == LowerAll(gs) + [Strs.LowerStr(g)]
  {
    assert forall k :: 0 <= k < |gs| ==> (gs + [g])[k] == gs[k];
  }

  /** CamelToSnake2: cut the input into groups with findNextGroup and join the
      lower-cased groups with "_". Each round advances by at least one character,
      so the loop ends. */
  method CamelToSnake2(s: string) returns (r: string)
    ensures r == Strs.Join(LowerAll(Groups(s)), "_")
  {
    var accIdx := 0;
    var tmp: seq<string> := [];
    ghost var done: seq<string> := [];
    while accIdx < |s|
      invariant 0 <= accIdx <= |s|
      invariant Groups(s) == done + Groups(s[accIdx..])
      invariant tmp == LowerAll(done)
      decreases |s| - accIdx
    {
      var rest := s[accIdx..];
      var group, idx := FindNextGroup(rest);
      GroupsStep(s, accIdx, done);
      LowerAllSnoc(done, group);
      done := done + [group];
      accIdx := accIdx + idx;
      tmp := tmp + [Strs.LowerStr(group)];
    }
    assert s[accIdx..] == [];
    assert done == Groups(s);
    r := Strs.Join(tmp, "_");
  }

  /** One round of CamelToSnake2: the next group is cut off the rest of the input. */
  lemma GroupsStep(s: string, accIdx: nat, done: seq<string>)
    requires accIdx < |s|
    ensures var rest := s[accIdx..];
      done + Groups(rest) == (done + [rest[..GroupEnd(rest)]]) + Groups(s[accIdx + GroupEnd(rest)..])
  {
    var rest := s[accIdx..];
    var g, tail := rest[..GroupEnd(rest)], Groups(rest[GroupEnd(rest)..]);
    assert Groups(rest) == [g] + tail;
    assert rest[GroupEnd(rest)..] == s[accIdx + GroupEnd(rest)..];
    assert done + ([g] + tail) == (done + [g]) + tail;
  }

  // ------------------------------------------------------- small string helpers

  /** InBracket: s starts with `left` and ends with `right`. The two may overlap,
      so a string can be in brackets longer than itself together. */
  predicate InBracket(s: string, left: string, right: string): (r: bool)
    ensures r <==> left <= s && |right| <= |s| && s[|s| - |right|..] == right
    ensures r ==> |left| <= |s| && |right| <= |s|
  {
    Strs.HasPrefix(s, left) && Strs.HasSuffix(s, right)
  }

  /** Any text wrapped in the two brackets is in them; a bracketed text long enough
      for both brackets is exactly left + middle + right. */
  lemma InBracketWrap(left: string, middle: string, right: string)
    ensures InBracket(left + middle + right, left, right)
  {
    var s := left + middle + right;
    assert s[..|left|] == left;
    assert s[|s| - |right|..] == right;
  }

  lemma InBracketSplit(s: string, left: string, right: string)
    requires InBracket(s, left, right) && |left| + |right| <= |s|
    ensures s == left + s[|left|..|s| - |right|] + right
  {
    assert s == s[..|left|] + s[|left|..|s| - |right|] + s[|s| - |right|..];
  }

  /** OrDefault: the value unless it is empty. The result is empty only when both
      are, and applying it twice changes nothing. */
  function OrDefault(value: string, defaultValue: string): (r: string)
    ensures r == "" <==> value == "" && defaultValue == ""
    ensures r == value || r == defaultValue
    ensures value != "" ==> r == value
  {
    if value != "" then value else defaultValue
  }

  lemma OrDefaultIdempotent(value: string, defaultValue: string)
    ensures OrDefault(OrDefault(value, defaultValue), defaultValue) == OrDefault(value, defaultValue)
  {
  }

  /** ToStr: a time as RFC 3339, a string in single quotes, anything else as
      fmt.Sprint prints it. */
  function ToStr(v: Value): (r: string)
    ensures v.Text? ==> |r| == |v.s| + 2 && r[0] == '\'' && r[|r| - 1] == '\'' && r[1..|r| - 1] == v.s
    ensures v.Time? ==> r == v.rfc3339
  {
    match v
    case Time(rfc3339, _) => rfc3339
    case Text(s) => "'" + s + "'"
    case _ => Values.Sprint(v)
  }

  /** Two strings have the same ToStr key only if they are equal. */
  lemma ToStrTextInjective(a: string, b: string)
    ensures ToStr(Text(a)) == ToStr(Text(b)) ==> a == b
  {
    if ToStr(Text(a)) == ToStr(Text(b)) {
      var r := ToStr(Text(a));
      assert a == r[1..|r| - 1];
    }
  }

  // ---------------------------------------------------------- ArrGet, ContainInt

  /** ArrGet: arr[i] for each i of idx, in order; an index outside arr panics. */
  method ArrGet<T>(arr: seq<T>, idx: seq<int>) returns (r: Outcome<seq<T>>)
    ensures r.Returns? <==> forall k :: 0 <= k < |idx| ==> 0 <= idx[k] < |arr|
    ensures r.Returns? ==> |r.value| == |idx| && forall k :: 0 <= k < |idx| ==> r.value[k] == arr[idx[k]]
  {
    var ret: seq<T> := [];
    var k := 0;
    while k < |idx|
      invariant 0 <= k <= |idx|
      invariant forall j :: 0 <= j < k ==> 0 <= idx[j] < |arr|
      invariant |ret| == k && forall j :: 0 <= j < k ==> ret[j] == arr[idx[j]]
    {
      if !(0 <= idx[k] < |arr|) {
        return Panics("index out of range");
      }
      ret := ret + [arr[idx[k]]];
      k := k + 1;
    }
    return Returns(ret);
  }

  /** ContainInt: whether elem occurs in sl. */
  method ContainInt(sl: seq<int>, elem: int) returns (found: bool)
    ensures found <==> elem in sl
  {
    for i := 0 to |sl|
      invariant elem !in sl[..i]
    {
      if sl[i] == elem {
        return true;
      }
    }
    assert sl[..|sl|] == sl;
    return false;
  }

  // ------------------------------------------------------------------ CSV pivot

  /** Column j of every row appended, row by row, to the entry of header j: the map
      ReadCSVFile builds from rows that fit the header. */
  function Pivot(headers: seq<string>, rows: seq<seq<string>>): map<string, seq<string>>
    requires forall i :: 0 <= i < |rows| ==> |rows[i]| <= |headers|
    decreases |rows|
  {
    if rows == [] then map[]
    else AppendRow(Pivot(headers, rows[..|rows| - 1]), headers, rows[|rows| - 1], |rows[|rows| - 1]|)
  }

  /** The first n cells of a row appended under their headers. */
  function AppendRow(df: map<string, seq<string>>, headers: seq<string>, row: seq<string>, n: nat): map<string, seq<string>>
    requires n <= |row| <= |headers|
  {
    if n == 0 then df
    else
      var prev := AppendRow(df, headers, row, n - 1);
      var h := headers[n - 1];
      prev[h := (if h in prev then prev[h] else []) + [row[n - 1]]]
  }

  /** With distinct headers and full rows, each header's entry is its column, top to bottom. */
  lemma {:induction false} PivotColumns(headers: seq<string>, rows: seq<seq<string>>, j: nat)
    requires j < |headers|
    requires forall a, b :: 0 <= a < b < |headers| ==> headers[a] != headers[b]
    requires forall i :: 0 <= i < |rows| ==> |rows[i]| == |headers|
    ensures rows != [] ==> headers[j] in Pivot(headers, rows)
    ensures rows != [] ==> Pivot(headers, rows)[headers[j]] == seq(|rows|, i requires 0 <= i < |rows| => rows[i][j])
    ensures rows == [] ==> Pivot(headers, rows) == map[]
    decreases |rows|
  {
    if rows != [] {
      var init := rows[..|rows| - 1];
      var last := rows[|rows| - 1];
      PivotColumns(headers, init, j);
      AppendRowEffect(Pivot(headers, init), headers, last, |last|, j);
      var col := seq(|rows|, i requires 0 <= i < |rows| => rows[i][j]);
      assert col == seq(|init|, i requires 0 <= i < |init| => init[i][j]) + [last[j]];
    }
  }

  /** Appending a full row adds exactly that row's cell j under header j. */
  lemma {:induction false} AppendRowEffect(df: map<string, seq<string>>, headers: seq<string>, row: seq<string>, n: nat, j: nat)
    requires n <= |row| == |headers| && j < |headers|
    requires forall a, b :: 0 <= a < b < |headers| ==> headers[a] != headers[b]
    ensures var out := AppendRow(df, headers, row, n);
      && (j < n ==> headers[j] in out && out[headers[j]] == (if headers[j] in df then df[headers[j]] else []) + [row[j]])
      && (n <= j ==> (headers[j] in out <==> headers[j] in df) && (headers[j] in df ==> out[headers[j]] == df[headers[j]]))
    decreases n
  {
    if n > 0 {
      AppendRowEffect(df, headers, row, n - 1, j);
    }
  }

  /** The pivot of ReadCSVFile over already parsed records: the first record is the
      header, every later record's cell j is appended to the header-j column. No
      record panics (records[0]); so does a row longer than the header. */
  method PivotRecords(records: seq<seq<string>>) returns (r: Outcome<map<string, seq<string>>>)
    ensures records == [] ==> r.Panics?
    ensures records != [] && (forall i :: 1 <= i < |records| ==> |records[i]| <= |records[0]|) ==>
      r == Returns(Pivot(records[0], records[1..]))
    ensures records != [] && (exists i :: 1 <= i < |records| && |records[i]| > |records[0]|) ==> r.Panics?
  {
    if records == [] {
      return Panics("index out of range");
    }
    var headers := records[0];
    var rows := records[1..];
    var df: map<string, seq<string>> := map[];
    var i := 0;
    while i < |rows|
      invariant 0 <= i <= |rows|
      invariant forall k :: 0 <= k < i ==> |rows[k]| <= |headers|
      invariant df == Pivot(headers, rows[..i])
    {
      var row := rows[i];
      var index := 0;
      assert rows[..i + 1][..i] == rows[..i];
      ghost var before := df;
      while index < |row|
        invariant 0 <= index <= |row|
        invariant index <= |headers| ==> df == AppendRow(before, headers, row[..index], index)
        invariant index <= |headers|
      {
        if index >= |headers| {
          assert records[i + 1] == row;
          return Panics("index out of range");
        }
        var headerName := headers[index];
        AppendRowPrefix(before, headers, row, index);
        df := df[headerName := (if headerName in df then df[headerName] else []) + [row[index]]];
        index := index + 1;
      }
      assert row[..index] == row;
      i := i + 1;
    }
    assert rows[..i] == rows;
    return Returns(df);
  }

  /** AppendRow only looks at the cells it appends. */
  lemma {:induction false} AppendRowPrefix(df: map<string, seq<string>>, headers: seq<string>, row: seq<string>, n: nat)
    requires n < |row| && n < |headers|
    ensures AppendRow(df, headers, row[..n + 1], n + 1)
         == var prev := AppendRow(df, headers, row[..n], n);
            prev[headers[n] := (if headers[n] in prev then prev[headers[n]] else []) + [row[n]]]
  {
    AppendRowSame(df, headers, row[..n + 1], row[..n], n);
  }

  lemma {:induction false} AppendRowSame(df: map<string, seq<string>>, headers: seq<string>, a: seq<string>, b: seq<string>, n: nat)
    requires n <= |a| <= |headers| && n <= |b| <= |headers|
    requires a[..n] == b[..n]
    ensures AppendRow(df, headers, a, n) == AppendRow(df, headers, b, n)
    decreases n
  {
    if n > 0 {
      assert a[..n - 1] == b[..n - 1];
      assert a[n - 1] == a[..n][n - 1];
      AppendRowSame(df, headers, a, b, n - 1);
    }
  }
}
