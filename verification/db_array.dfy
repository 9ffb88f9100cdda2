/** Reading Postgres array literals back (util/db.go, allTokens and ParseDBArray):
    the literal is cut into trimmed tokens, then each token is read as the element
    type asks. */
module DbArray {
  import opened Common
  import Strs
  import Db

  /** The tokens of a one-level array literal: strip commas at both ends, then
      braces, split at commas and strip spaces around each piece. */
  function Tokens(repr: string): (tokens: seq<string>)
    ensures |tokens| >= 1
  {
    var inner := Strs.Trim(Strs.Trim(Strs.Trim(repr, ','), '{'), '}');
    var parts := Strs.Split(inner, ',');
    seq(|parts|, i requires 0 <= i < |parts| => Strs.Trim(parts[i], ' '))
  }

  /** allTokens: split, then trim every piece in place. */
  method AllTokens(repr: string) returns (ret: seq<string>)
    ensures ret == Tokens(repr)
  {
    var inner := Strs.Trim(repr, ',');
    inner := Strs.Trim(Strs.Trim(inner, '{'), '}');
    ret := Strs.Split(inner, ',');
    ghost var parts := ret;
    for i := 0 to |ret|
      invariant |ret| == |parts|
      invariant forall k :: 0 <= k < i ==> ret[k] == Strs.Trim(parts[k], ' ')
      invariant forall k :: i <= k < |ret| ==> ret[k] == parts[k]
    {
      ret := ret[i := Strs.Trim(ret[i], ' ')];
    }
  }

  /** A token that an array element written by DBArrayValues can be: no comma, no
      brace, and no space at either end. */
  predicate Clean(s: string)
  {
    ',' !in s && '{' !in s && '}' !in s && (s == [] || (s[0] != ' ' && s[|s| - 1] != ' '))
  }

  /** Tokens undoes the comma-join inside braces of clean elements. */
  lemma TokensOfLiteral(parts: seq<string>)
    requires |parts| >= 1
    requires forall i :: 0 <= i < |parts| ==> Clean(parts[i])
    ensures Tokens("{" + Strs.Join(parts, ",") + "}") == parts
  {
    var inner := Strs.Join(parts, ",");
    BracesOff(parts);
    SplitClean(parts);
    var ps := Strs.Split(inner, ',');
    assert Tokens("{" + inner + "}") == seq(|ps|, i requires 0 <= i < |ps| => Strs.Trim(ps[i], ' '));
  }

  /** The braces around comma-joined clean elements come off again. */
  lemma BracesOff(parts: seq<string>)
    requires forall i :: 0 <= i < |parts| ==> Clean(parts[i])
    ensures Strs.Trim(Strs.Trim(Strs.Trim("{" + Strs.Join(parts, ",") + "}", ','), '{'), '}') == Strs.Join(parts, ",")
  {
    JoinNoBraces(parts);
    StripBraces(Strs.Join(parts, ","));
  }

  /** Comma-joined clean elements hold no brace. */
  lemma JoinNoBraces(parts: seq<string>)
    requires forall i :: 0 <= i < |parts| ==> Clean(parts[i])
    ensures '{' !in Strs.Join(parts, ",") && '}' !in Strs.Join(parts, ",")
  {
    JoinAvoids(parts, ",", '{');
    JoinAvoids(parts, ",", '}');
  }

  /** Splitting comma-joined clean elements and trimming spaces gives the elements. */
  lemma SplitClean(parts: seq<string>)
    requires |parts| >= 1
    requires forall i :: 0 <= i < |parts| ==> Clean(parts[i])
    ensures var ps := Strs.Split(Strs.Join(parts, ","), ',');
      seq(|ps|, i requires 0 <= i < |ps| => Strs.Trim(ps[i], ' ')) == parts
  {
    Strs.SplitJoin(parts, ',');
  }

  /** Stripping commas, then braces, from `{inner}` gives inner back when inner has no braces. */
  lemma StripBraces(inner: string)
    requires '{' !in inner && '}' !in inner
    ensures Strs.Trim(Strs.Trim(Strs.Trim("{" + inner + "}", ','), '{'), '}') == inner
  {
    var repr := "{" + inner + "}";
    var step := inner + "}";
    assert repr[0] == '{' && repr[|repr| - 1] == '}';
    assert Strs.Trim(repr, ',') == repr;
    assert repr[1..] == step;
    assert step[0] != '{' by {
      if inner != [] {
        assert step[0] == inner[0];
      }
    }
    assert Strs.TrimLeft(repr, '{') == step;
    assert Strs.TrimRight(step, '{') == step;
    assert Strs.Trim(repr, '{') == step;
    if inner == [] {
      assert step == "}";
      assert Strs.TrimLeft(step, '}') == [];
    } else {
      assert step[0] == inner[0];
      assert Strs.TrimLeft(step, '}') == step;
      assert step[..|step| - 1] == inner;
      assert inner[|inner| - 1] in inner;
      assert Strs.TrimRight(step, '}') == inner;
    }
  }

  /** Joining parts that avoid a character with a separator that avoids it gives a
      string that avoids it. */
  lemma {:induction false} JoinAvoids(parts: seq<string>, sep: string, c: char)
    requires c !in sep
    requires forall i :: 0 <= i < |parts| ==> c !in parts[i]
    ensures c !in Strs.Join(parts, sep)
    decreases |parts|
  {
    if |parts| > 1 {
      JoinAvoids(parts[1..], sep, c);
    }
  }

  // ------------------------------------------------------------- int elements

  function NumErr(e: Option<NumError>): Option<Error>
  {
    if e.Some? then Some(Parse(e.value)) else None
  }

  /** The int branch as written: every token through Atoi (0 or the clamped bound
      when it fails), and the error left over is the LAST token's. */
  function ParseInts(tokens: seq<string>): (r: (seq<int>, Option<Error>))
    ensures |r.0| == |tokens|
    ensures forall i :: 0 <= i < |tokens| ==> r.0[i] == Strs.Atoi(tokens[i]).0
    ensures tokens == [] ==> r.1 == None
    ensures tokens != [] ==> r.1 == NumErr(Strs.Atoi(tokens[|tokens| - 1]).1)
  {
    var vals := seq(|tokens|, i requires 0 <= i < |tokens| => Strs.Atoi(tokens[i]).0);
    if tokens == [] then (vals, None) else (vals, NumErr(Strs.Atoi(tokens[|tokens| - 1]).1))
  }

  /** The int branch as intended: the first token that is not an int64 is reported. */
  function ParseIntsStrict(tokens: seq<string>): (r: (seq<int>, Option<Error>))
    ensures |r.0| == |tokens|
    ensures forall i :: 0 <= i < |tokens| ==> r.0[i] == Strs.Atoi(tokens[i]).0
    decreases |tokens|
  {
    if tokens == [] then ([], None)
    else
      var (v, e) := Strs.Atoi(tokens[0]);
      var (rest, restErr) := ParseIntsStrict(tokens[1..]);
      ([v] + rest, if e.Some? then NumErr(e) else restErr)
  }

  /** The intended branch reports an error exactly when some token is not an int64. */
  lemma {:induction false} ParseIntsStrictError(tokens: seq<string>)
    ensures ParseIntsStrict(tokens).1.None? <==> forall i :: 0 <= i < |tokens| ==> Strs.Atoi(tokens[i]).1.None?
    decreases |tokens|
  {
    if tokens != [] {
      ParseIntsStrictError(tokens[1..]);
      assert forall i :: 1 <= i < |tokens| ==> tokens[1..][i - 1] == tokens[i];
    }
  }

  /** ... and the error it reports is the first malformed token's. */
  lemma {:induction false} ParseIntsStrictFirstError(tokens: seq<string>, j: nat)
    requires j < |tokens| && Strs.Atoi(tokens[j]).1.Some?
    requires forall i :: 0 <= i < j ==> Strs.Atoi(tokens[i]).1.None?
    ensures ParseIntsStrict(tokens).1 == NumErr(Strs.Atoi(tokens[j]).1)
    decreases j
  {
    if j > 0 {
      assert Strs.Atoi(tokens[0]).1.None?;
      assert tokens[1..][j - 1] == tokens[j];
      assert forall i :: 0 <= i < j - 1 ==> tokens[1..][i] == tokens[i + 1];
      ParseIntsStrictFirstError(tokens[1..], j - 1);
    }
  }

  /** As written, a malformed token before the last one goes unreported:
      `{x,1}` reads as [0, 1] with no error. */
  lemma ParseIntsDropsEarlyError()
    ensures Tokens("{x,1}") == ["x", "1"]
    ensures Strs.Atoi("x").1.Some?
    ensures ParseInts(Tokens("{x,1}")) == ([0, 1], None)
    ensures ParseIntsStrict(Tokens("{x,1}")).1.Some?
  {
    TokensXOne();
    AtoiXOne();
    var r := ParseInts(["x", "1"]);
    assert r.0 == [0, 1];
  }

  /** The literal {x,1} splits into the tokens x and 1. */
  lemma TokensXOne()
    ensures Tokens("{x,1}") == ["x", "1"]
  {
    assert "{" + Strs.Join(["x", "1"], ",") + "}" == "{x,1}" by {
      assert Strs.Join(["x", "1"], ",") == "x" + "," + Strs.Join(["1"], ",");
    }
    TokensOfLiteral(["x", "1"]);
  }

  /** strconv.Atoi rejects x and reads 1. */
  lemma AtoiXOne()
    ensures Strs.Atoi("x") == (0, Some(SyntaxError("Atoi", "x")))
    ensures Strs.Atoi("1") == (1, None)
  {
    assert !Strs.IsDigit("x"[0]);
    assert Strs.AllDigits("1");
    assert Strs.DigitsValue("1") == 1 by {
      assert "1"[..0] == "";
    }
  }

  // ------------------------------------------------------------ bool elements

  /** The bool branch: "t" and "f" only; the first other token stops the parse with
      an error and no elements. */
  function ParseBools(tokens: seq<string>): (r: (seq<bool>, Option<Error>))
    ensures r.1.None? <==> forall i :: 0 <= i < |tokens| ==> tokens[i] == "t" || tokens[i] == "f"
    ensures r.1.None? ==> |r.0| == |tokens| && forall i :: 0 <= i < |tokens| ==> r.0[i] == (tokens[i] == "t")
    ensures r.1.Some? ==> r.0 == []
    decreases |tokens|
  {
    if tokens == [] then ([], None)
    else if tokens[0] != "t" && tokens[0] != "f" then
      ([], Some(Plain("unrecognised token " + tokens[0] + " in bool array")))
    else
      var (rest, e) := ParseBools(tokens[1..]);
      assert forall i :: 1 <= i < |tokens| ==> tokens[1..][i - 1] == tokens[i];
      if e.Some? then ([], e) else ([tokens[0] == "t"] + rest, None)
  }

  // ----------------------------------------------------------------- the parse

  /** The element type ParseDBArray is instantiated with. */
  datatype ElemType = EString | EInt | EBool | EOther

  /** The conversion ParseDBArray applies to the tokens; elements are boxed as values. */
  function Convert(tokens: seq<string>, t: ElemType): (r: (seq<Value>, Option<Error>))
    ensures t == EString ==> r.1 == None && |r.0| == |tokens|
    ensures t == EOther ==> r == ([], Some(Plain("error type assertion")))
  {
    match t
    case EString => (seq(|tokens|, i requires 0 <= i < |tokens| => Text(tokens[i])), None)
    case EInt =>
      var (vs, e) := ParseInts(tokens);
      (seq(|vs|, i requires 0 <= i < |vs| => Int(vs[i])), e)
    case EBool =>
      var (bs, e) := ParseBools(tokens);
      (seq(|bs|, i requires 0 <= i < |bs| => Bool(bs[i])), e)
    case EOther => ([], Some(Plain("error type assertion")))
  }

  /** What ParseDBArray returns for each element type. */
  function ParseSpec(repr: string, t: ElemType): (seq<Value>, Option<Error>)
  {
    Convert(Tokens(repr), t)
  }

  /** ParseDBArray: tokenize, then convert per element type. */
  method ParseDBArray(repr: string, t: ElemType) returns (ret: seq<Value>, err: Option<Error>)
    ensures (ret, err) == ParseSpec(repr, t)
  {
    var tokens := AllTokens(repr);
    match t {
      case EString =>
        ret, err := seq(|tokens|, i requires 0 <= i < |tokens| => Text(tokens[i])), None;
      case EInt =>
        ret, err := ReadInts(tokens);
      case EBool =>
        ret, err := ReadBools(tokens);
      case EOther =>
        ret, err := [], Some(Plain("error type assertion"));
    }
  }

  /** The int loop: Atoi every token, keep the value, overwrite the error. */
  method ReadInts(tokens: seq<string>) returns (res: seq<Value>, err: Option<Error>)
    ensures (res, err) == Convert(tokens, EInt)
  {
    res, err := [], None;
    for i := 0 to |tokens|
      invariant res == seq(i, k requires 0 <= k < i => Int(Strs.Atoi(tokens[k]).0))
      invariant i == 0 ==> err == None
      invariant i > 0 ==> err == NumErr(Strs.Atoi(tokens[i - 1]).1)
    {
      var (v, e) := Strs.Atoi(tokens[i]);
      err := NumErr(e);
      res := res + [Int(v)];
    }
    ghost var vs := ParseInts(tokens).0;
    assert res == seq(|vs|, i requires 0 <= i < |vs| => Int(vs[i]));
  }

  /** The bool loop: "t" or "f" per token, stop at the first other token. */
  method ReadBools(tokens: seq<string>) returns (res: seq<Value>, err: Option<Error>)
    ensures (res, err) == Convert(tokens, EBool)
  {
    res := [];
    for i := 0 to |tokens|
      invariant forall k :: 0 <= k < i ==> tokens[k] == "t" || tokens[k] == "f"
      invariant res == seq(i, k requires 0 <= k < i => Bool(tokens[k] == "t"))
    {
      if tokens[i] != "t" && tokens[i] != "f" {
        BoolsFirstBad(tokens, i);
        ghost var bs := ParseBools(tokens).0;
        assert bs == [];
        assert seq(|bs|, k requires 0 <= k < |bs| => Bool(bs[k])) == [];
        return [], Some(Plain("unrecognised token " + tokens[i] + " in bool array"));
      }
      res := res + [Bool(tokens[i] == "t")];
    }
    err := None;
    ghost var bs := ParseBools(tokens).0;
    assert res == seq(|bs|, i requires 0 <= i < |bs| => Bool(bs[i]));
  }

  /** ParseBools stops at the first token that is neither "t" nor "f". */
  lemma {:induction false} BoolsFirstBad(tokens: seq<string>, j: nat)
    requires j < |tokens| && tokens[j] != "t" && tokens[j] != "f"
    requires forall k :: 0 <= k < j ==> tokens[k] == "t" || tokens[k] == "f"
    ensures ParseBools(tokens).1 == Some(Plain("unrecognised token " + tokens[j] + " in bool array"))
    decreases j
  {
    if j > 0 {
      BoolsFirstBad(tokens[1..], j - 1);
    }
  }

  // ---------------------------------------------------------- round trips

  /** Decimal integers are clean array elements. */
  lemma IntTextClean(n: int)
    ensures Clean(Strs.IntToString(n)) && Strs.IntToString(n) != []
  {
    var d := Strs.NatToString(if n < 0 then -n else n);
    assert forall k :: 0 <= k < |d| ==> Strs.IsDigit(d[k]);
    var s := Strs.IntToString(n);
    assert forall k :: 0 <= k < |s| ==> s[k] == '-' || Strs.IsDigit(s[k]);
  }

  /** An int64 array written by DBArrayValues reads back as the same integers, without error. */
  lemma IntArrayRoundTrip(ns: seq<int>)
    requires |ns| >= 1
    requires forall i :: 0 <= i < |ns| ==> Strs.MinInt64 <= ns[i] <= Strs.MaxInt64
    ensures var vs := seq(|ns|, i requires 0 <= i < |ns| => Int(ns[i]));
      ParseSpec(Db.ArrayLiteral(vs), EInt) == (vs, None)
  {
    var vs := seq(|ns|, i requires 0 <= i < |ns| => Int(ns[i]));
    var items := seq(|vs|, i requires 0 <= i < |vs| => Db.ArrayItem(vs[i]));
    forall i | 0 <= i < |ns|
      ensures items[i] == Strs.IntToString(ns[i]) && Clean(items[i])
      ensures Strs.Atoi(items[i]) == (ns[i], None)
    {
      IntTextClean(ns[i]);
      Strs.AtoiIntToString(ns[i]);
    }
    TokensOfLiteral(items);
    assert Tokens(Db.ArrayLiteral(vs)) == items;
    IntItemsConvert(ns, items);
  }

  /** Tokens that Atoi reads without error as ns convert to ns. */
  lemma IntItemsConvert(ns: seq<int>, items: seq<string>)
    requires |items| == |ns| >= 1
    requires forall i :: 0 <= i < |ns| ==> Strs.Atoi(items[i]) == (ns[i], None)
    ensures Convert(items, EInt) == (seq(|ns|, i requires 0 <= i < |ns| => Int(ns[i])), None)
  {
    var (vals, e) := ParseInts(items);
    assert vals == ns;
  }

  /** A string array of clean, non-empty elements written by DBArrayValues reads back
      as the same strings. */
  lemma StringArrayRoundTrip(ss: seq<string>)
    requires |ss| >= 1
    requires forall i :: 0 <= i < |ss| ==> ss[i] != [] && Clean(ss[i])
    ensures var vs := seq(|ss|, i requires 0 <= i < |ss| => Text(ss[i]));
      ParseSpec(Db.ArrayLiteral(vs), EString) == (vs, None)
  {
    var vs := seq(|ss|, i requires 0 <= i < |ss| => Text(ss[i]));
    var items := seq(|vs|, i requires 0 <= i < |vs| => Db.ArrayItem(vs[i]));
    assert items == ss;
    TokensOfLiteral(ss);
  }

  /** A bool array literal of t/f tokens reads back as those booleans. */
  lemma BoolArrayRoundTrip(bs: seq<bool>)
    requires |bs| >= 1
    ensures var toks := seq(|bs|, i requires 0 <= i < |bs| => if bs[i] then "t" else "f");
      ParseSpec("{" + Strs.Join(toks, ",") + "}", EBool) == (seq(|bs|, i requires 0 <= i < |bs| => Bool(bs[i])), None)
  {
    var toks := seq(|bs|, i requires 0 <= i < |bs| => if bs[i] then "t" else "f");
    forall i | 0 <= i < |toks|
      ensures Clean(toks[i]) && (toks[i] == "t" || toks[i] == "f")
    {
    }
    TokensOfLiteral(toks);
    var (vals, e) := ParseBools(toks);
    assert e.None?;
    assert vals == bs;
  }

  // ------------------------------------------------------------ the empty array

  /** As written, an empty array does not come back. DBArrayValues writes "{}",
      whose one token is "", so ints read as [0] with Atoi's syntax error, strings
      as [""], and bools stop at the unrecognised token "". */
  lemma EmptyArrayDoesNotRoundTrip()
    ensures Db.ArrayLiteral([]) == "{}"
    ensures Tokens("{}") == [""]
    ensures ParseSpec("{}", EInt) == ([Int(0)], Some(Parse(SyntaxError("Atoi", ""))))
    ensures ParseSpec("{}", EString) == ([Text("")], None)
    ensures ParseSpec("{}", EBool) == ([], Some(Plain("unrecognised token  in bool array")))
  {
    EmptyTokens();
    assert Strs.Atoi("") == (0, Some(SyntaxError("Atoi", "")));
    var (vs, e) := ParseInts([""]);
    assert vs == [0] && e == Some(Parse(SyntaxError("Atoi", "")));
    var ci := Convert([""], EInt);
    assert |ci.0| == 1 && ci.0[0] == Int(0) && ci.1 == e;
    assert ci.0 == [Int(0)];
    var cs := Convert([""], EString);
    assert |cs.0| == 1 && cs.0[0] == Text("");
    assert cs.0 == [Text("")];
    assert ParseBools([""]) == ([], Some(Plain("unrecognised token " + "" + " in bool array")));
    assert "unrecognised token " + "" + " in bool array" == "unrecognised token  in bool array";
    var cb := Convert([""], EBool);
    assert cb.0 == [] && cb.1 == Some(Plain("unrecognised token  in bool array"));
  }

  /** "{}" has the one token "". */
  lemma EmptyTokens()
    ensures Tokens("{}") == [""]
  {
    EmptyInner();
    assert Strs.Split("", ',') == [""];
  }

  /** Nothing is left of "{}" once the commas and braces are trimmed. */
  lemma EmptyInner()
    ensures Strs.Trim(Strs.Trim(Strs.Trim("{}", ','), '{'), '}') == ""
  {
    assert Strs.Trim("{}", ',') == "{}";
    assert Strs.TrimLeft("{}", '{') == "}";
    assert Strs.TrimLeft("}", '}') == "";
  }

  /** The tokenizer with an empty literal read as no tokens at all. */
  function TokensFixed(repr: string): (tokens: seq<string>)
    ensures Strs.Trim(Strs.Trim(Strs.Trim(repr, ','), '{'), '}') == "" <==> tokens == []
    ensures tokens != [] ==> tokens == Tokens(repr)
  {
    var inner := Strs.Trim(Strs.Trim(Strs.Trim(repr, ','), '{'), '}');
    if inner == "" then [] else Tokens(repr)
  }

  /** ParseDBArray over the corrected tokenizer. */
  function ParseSpecFixed(repr: string, t: ElemType): (seq<Value>, Option<Error>)
  {
    Convert(TokensFixed(repr), t)
  }

  /** The corrected parse reads "{}" as the empty array for every supported type. */
  lemma FixedOfEmpty(t: ElemType)
    requires t != EOther
    ensures ParseSpecFixed("{}", t) == ([], None)
  {
    EmptyInner();
    assert TokensFixed("{}") == [];
    var r := Convert([], t);
    assert |r.0| == 0 && r.1 == None by {
      if t == EInt { assert ParseInts([]) == ([], None); }
      if t == EBool { assert ParseBools([]) == ([], None); }
    }
    assert r.0 == [];
  }

  /** On a literal of clean elements, the first one non-empty, the corrected parse
      agrees with the parse as written. */
  lemma FixedOfLiteral(parts: seq<string>, t: ElemType)
    requires |parts| >= 1 && parts[0] != []
    requires forall i :: 0 <= i < |parts| ==> Clean(parts[i])
    ensures ParseSpecFixed("{" + Strs.Join(parts, ",") + "}", t) == ParseSpec("{" + Strs.Join(parts, ",") + "}", t)
  {
    BracesOff(parts);
    assert Strs.Join(parts, ",") != [] by {
      if |parts| > 1 { assert Strs.Join(parts, ",") == parts[0] + "," + Strs.Join(parts[1..], ","); }
    }
  }

  /** With the corrected tokenizer every int64 array, the empty one included, reads
      back as the same integers without error. */
  lemma IntArrayRoundTripFixed(ns: seq<int>)
    requires forall i :: 0 <= i < |ns| ==> Strs.MinInt64 <= ns[i] <= Strs.MaxInt64
    ensures var vs := seq(|ns|, i requires 0 <= i < |ns| => Int(ns[i]));
      ParseSpecFixed(Db.ArrayLiteral(vs), EInt) == (vs, None)
  {
    var vs := seq(|ns|, i requires 0 <= i < |ns| => Int(ns[i]));
    var items := seq(|vs|, i requires 0 <= i < |vs| => Db.ArrayItem(vs[i]));
    assert Db.ArrayLiteral(vs) == "{" + Strs.Join(items, ",") + "}";
    if ns == [] {
      FixedOfEmpty(EInt);
    } else {
      IntArrayRoundTrip(ns);
      forall i | 0 <= i < |items| ensures Clean(items[i]) && items[i] != [] { IntTextClean(ns[i]); }
      FixedOfLiteral(items, EInt);
    }
  }

  /** With the corrected tokenizer every array of non-empty clean strings, the empty
      array included, reads back unchanged. (An empty element is written as two
      double quotes, which read back as that two-quote token, not as "".) */
  lemma StringArrayRoundTripFixed(ss: seq<string>)
    requires forall i :: 0 <= i < |ss| ==> ss[i] != [] && Clean(ss[i])
    ensures var vs := seq(|ss|, i requires 0 <= i < |ss| => Text(ss[i]));
      ParseSpecFixed(Db.ArrayLiteral(vs), EString) == (vs, None)
  {
    var vs := seq(|ss|, i requires 0 <= i < |ss| => Text(ss[i]));
    var items := seq(|vs|, i requires 0 <= i < |vs| => Db.ArrayItem(vs[i]));
    assert Db.ArrayLiteral(vs) == "{" + Strs.Join(items, ",") + "}";
    assert items == ss;
    if ss == [] {
      FixedOfEmpty(EString);
    } else {
      StringArrayRoundTrip(ss);
      FixedOfLiteral(items, EString);
    }
  }

  /** With the corrected tokenizer every bool array, the empty one included, reads
      back as the same booleans. */
  lemma BoolArrayRoundTripFixed(bs: seq<bool>)
    ensures var toks := seq(|bs|, i requires 0 <= i < |bs| => if bs[i] then "t" else "f");
      ParseSpecFixed("{" + Strs.Join(toks, ",") + "}", EBool) == (seq(|bs|, i requires 0 <= i < |bs| => Bool(bs[i])), None)
  {
    var toks := seq(|bs|, i requires 0 <= i < |bs| => if bs[i] then "t" else "f");
    if bs == [] {
      assert "{" + Strs.Join(toks, ",") + "}" == "{}";
      FixedOfEmpty(EBool);
    } else {
      BoolArrayRoundTrip(bs);
      forall i | 0 <= i < |toks| ensures Clean(toks[i]) { }
      FixedOfLiteral(toks, EBool);
    }
  }
}
