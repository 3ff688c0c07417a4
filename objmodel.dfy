/**
 * `Model::read` of `src/model.rs`: Wavefront OBJ lines are classified by
 * prefix; `"v "` lines give vertices, `"f "` lines give faces of 0-based
 * indices, and every other line is skipped.  Reading lines from the file
 * is left to the caller (the lines are an input), and `parse::<f32>` is a
 * parameter.  A failed `unwrap`, an out-of-range index into the tokens and
 * an overflowing `- 1` are `Panic`.
 */
module ObjModel {
  import opened Common
  import opened Geometry

  // ---------------------------------------------------------------------
  // str::split_whitespace
  // ---------------------------------------------------------------------

  /** `char::is_whitespace`: the Unicode White_Space property. */
  predicate IsWhitespace(c: char)
  {
    var n := c as int;
    (0x09 <= n <= 0x0D) || n == 0x20 || n == 0x85 || n == 0xA0 || n == 0x1680
    || (0x2000 <= n <= 0x200A) || n == 0x2028 || n == 0x2029 || n == 0x202F
    || n == 0x205F || n == 0x3000
  }

  predicate NoWhitespace(s: string)
  {
    forall i :: 0 <= i < |s| ==> !IsWhitespace(s[i])
  }

  /** The length of the run of non-whitespace characters that starts `s`. */
  function TokenLength(s: string): (n: nat)
    ensures n <= |s| && NoWhitespace(s[..n]) && (n < |s| ==> IsWhitespace(s[n]))
  {
    if |s| == 0 || IsWhitespace(s[0]) then 0
    else
      var n := 1 + TokenLength(s[1..]);
      assert s[..n] == [s[0]] + s[1..][..n - 1];
      n
  }

  /** `str::split_whitespace`: the maximal runs of non-whitespace characters, in order. */
  function SplitWhitespace(s: string): (tokens: seq<string>)
    ensures forall k :: 0 <= k < |tokens| ==> |tokens[k]| > 0 && NoWhitespace(tokens[k])
    ensures |s| > 0 && !IsWhitespace(s[0]) ==> |tokens| > 0
    decreases |s|
  {
    if |s| == 0 then []
    else if IsWhitespace(s[0]) then SplitWhitespace(s[1..])
    else
      var n := TokenLength(s);
      [s[..n]] + SplitWhitespace(s[n..])
  }

  /** Words separated by single spaces. */
  function JoinWords(words: seq<string>): string
  {
    if |words| == 0 then ""
    else if |words| == 1 then words[0]
    else words[0] + " " + JoinWords(words[1..])
  }

  lemma TokenLengthOfWord(w: string, rest: string)
    requires NoWhitespace(w) && (|rest| > 0 ==> IsWhitespace(rest[0]))
    ensures TokenLength(w + rest) == |w|
    decreases |w|
  {
    if |w| > 0 {
      assert (w + rest)[1..] == w[1..] + rest;
      TokenLengthOfWord(w[1..], rest);
    }
  }

  /** Splitting words joined by spaces gives the words back. */
  lemma {:induction false} SplitJoin(words: seq<string>)
    requires forall k :: 0 <= k < |words| ==> |words[k]| > 0 && NoWhitespace(words[k])
    ensures SplitWhitespace(JoinWords(words)) == words
  {
    if |words| == 1 {
      var w := words[0];
      TokenLengthOfWord(w, "");
      assert w + "" == w;
      assert w[|w|..] == [];
    } else if |words| > 1 {
      var w, rest := words[0], JoinWords(words[1..]);
      var s := w + (" " + rest);
      assert JoinWords(words) == s;
      TokenLengthOfWord(w, " " + rest);
      assert s[..|w|] == w;
      assert s[|w|..] == " " + rest;
      assert (" " + rest)[1..] == rest;
      SplitJoin(words[1..]);
      assert SplitWhitespace(s) == [w] + words[1..];
    }
  }

  // ---------------------------------------------------------------------
  // str::split("/") and str::parse::<i32>
  // ---------------------------------------------------------------------

  /** The first field of `s.split("/")`: everything before the first `'/'`. */
  function FirstField(s: string): (f: string)
    ensures |f| <= |s| && f == s[..|f|] && '/' !in f && (|f| < |s| ==> s[|f|] == '/')
  {
    if |s| == 0 || s[0] == '/' then ""
    else
      var f := [s[0]] + FirstField(s[1..]);
      assert s[..|f|] == [s[0]] + s[1..][..|f| - 1];
      f
  }

  /** Fields after the first `'/'` play no part. */
  lemma FirstFieldIgnoresRest(a: string, b: string)
    requires '/' !in a
    ensures FirstField(a + "/" + b) == a
  {
    if |a| > 0 {
      assert (a + "/" + b)[1..] == a[1..] + "/" + b;
      FirstFieldIgnoresRest(a[1..], b);
    }
  }

  const I32Min: int := -0x8000_0000
  const I32Max: int := 0x7FFF_FFFF

  predicate IsDigit(c: char)
  {
    '0' <= c <= '9'
  }

  predicate AllDigits(s: string)
  {
    forall i :: 0 <= i < |s| ==> IsDigit(s[i])
  }

  /** The value of a string of decimal digits. */
  function DecimalValue(s: string): nat
    requires AllDigits(s)
  {
    if |s| == 0 then 0 else DecimalValue(s[..|s| - 1]) * 10 + (s[|s| - 1] as int - '0' as int)
  }

  /**
   * `str::parse::<i32>`: an optional `'+'` or `'-'`, then at least one
   * decimal digit and nothing else, with a value in the `i32` range.
   */
  function ParseI32(s: string): (r: Option<int>)
    ensures r.Some? ==> I32Min <= r.value <= I32Max
  {
    if |s| == 0 then None
    else
      var negative := s[0] == '-';
      var digits := if s[0] == '-' || s[0] == '+' then s[1..] else s;
      if |digits| == 0 || !AllDigits(digits) then None
      else
        var v: int := if negative then -(DecimalValue(digits) as int) else DecimalValue(digits);
        if I32Min <= v <= I32Max then Some(v) else None
  }

  /** Decimal digits of `n`, most significant first. */
  function Digits(n: nat): (s: string)
    ensures |s| > 0 && AllDigits(s)
  {
    if n < 10 then ['0' + (n as char)] else Digits(n / 10) + ['0' + ((n % 10) as char)]
  }

  /** `n` written in decimal, with a `'-'` when negative. */
  function Show(n: int): string
  {
    if n < 0 then "-" + Digits(-n) else Digits(n)
  }

  lemma {:induction false} DigitsValue(n: nat)
    ensures DecimalValue(Digits(n)) == n
  {
    if n >= 10 {
      DigitsValue(n / 10);
      var s := Digits(n);
      assert s[..|s| - 1] == Digits(n / 10);
    }
  }

  /** Every `i32` written in decimal parses back to itself. */
  lemma ParseShow(n: int)
    requires I32Min <= n <= I32Max
    ensures ParseI32(Show(n)) == Some(n)
  {
    if n < 0 {
      DigitsValue(-n);
      assert Show(n)[1..] == Digits(-n);
    } else {
      DigitsValue(n);
    }
  }

  /** A number outside the `i32` range does not parse. */
  lemma OutOfRangeFails(n: int)
    requires n < I32Min || n > I32Max
    ensures ParseI32(Show(n)) == None
  {
    var s := Show(n);
    if n < 0 {
      var d := Digits(-n);
      DigitsValue(-n);
      assert s == "-" + d && s[0] == '-' && s[1..] == d;
    } else {
      var d := Digits(n);
      DigitsValue(n);
      assert s == d && IsDigit(s[0]);
    }
  }

  // ---------------------------------------------------------------------
  // One line
  // ---------------------------------------------------------------------

  /** What one line contributes. */
  datatype Entry = VertexLine(vertex: Vector3D) | FaceLine(face: seq<int>) | OtherLine

  predicate StartsWith(line: string, prefix: string)
  {
    |prefix| <= |line| && line[..|prefix|] == prefix
  }

  /** `t[0].parse::<i32>().unwrap() - 1` for one face token. */
  function FaceIndex(token: string): (r: Outcome<int>)
    ensures r.Ok? ==> I32Min <= r.value <= I32Max
  {
    match ParseI32(FirstField(token))
    case None => Panic
    case Some(v) => if v - 1 < I32Min then Panic else Ok(v - 1)
  }

  /** All the values of a sequence of outcomes, in order, or `Panic` at the first that panics. */
  function CollectAll(rs: seq<Outcome<int>>): (r: Outcome<seq<int>>)
    ensures r.Ok? ==> |r.value| == |rs|
  {
    if |rs| == 0 then Ok([])
    else
      match CollectAll(rs[..|rs| - 1])
      case Panic => Panic
      case Ok(init) =>
        match rs[|rs| - 1]
        case Panic => Panic
        case Ok(i) => Ok(init + [i])
  }

  /** The outcomes collected panic exactly when one of them does. */
  lemma {:induction false} CollectAllPanics(rs: seq<Outcome<int>>)
    ensures CollectAll(rs).Panic? <==> exists k :: 0 <= k < |rs| && rs[k].Panic?
  {
    if |rs| > 0 {
      var n := |rs| - 1;
      var init := rs[..n];
      CollectAllPanics(init);
      if CollectAll(rs).Panic? {
        if CollectAll(init).Panic? {
          var k :| 0 <= k < |init| && init[k].Panic?;
          assert rs[k] == init[k];
        }
      } else {
        forall k | 0 <= k < n
          ensures !rs[k].Panic?
        {
          assert rs[k] == init[k];
        }
      }
    }
  }

  /** Otherwise value `k` is outcome `k`'s. */
  lemma {:induction false} CollectAllElementwise(rs: seq<Outcome<int>>)
    requires CollectAll(rs).Ok?
    ensures forall k :: 0 <= k < |rs| ==> rs[k] == Ok(CollectAll(rs).value[k])
  {
    if |rs| > 0 {
      var n := |rs| - 1;
      var init := rs[..n];
      CollectAllElementwise(init);
      forall k | 0 <= k < n
        ensures rs[k] == Ok(CollectAll(rs).value[k])
      {
        assert rs[k] == init[k];
      }
    }
  }

  /** The outcome of each token of a face line. */
  function TokenIndices(tokens: seq<string>): (rs: seq<Outcome<int>>)
    ensures |rs| == |tokens| && forall k :: 0 <= k < |tokens| ==> rs[k] == FaceIndex(tokens[k])
  {
    seq(|tokens|, k requires 0 <= k < |tokens| => FaceIndex(tokens[k]))
  }

  /** The indices of a face, one per token, in order. */
  function FaceIndices(tokens: seq<string>): Outcome<seq<int>>
  {
    CollectAll(TokenIndices(tokens))
  }

  /** The body of the loop over lines: classify by prefix and parse. */
  function ParseLine(line: string, parseFloat: string -> Option<real>): Outcome<Entry>
  {
    if StartsWith(line, "v ") then
      var parts := SplitWhitespace(line);
      if |parts| < 4 then Panic
      else
        match (parseFloat(parts[1]), parseFloat(parts[2]), parseFloat(parts[3]))
        case (Some(x), Some(y), Some(z)) => Ok(VertexLine(Vector3D(x, y, z)))
        case _ => Panic
    else if StartsWith(line, "f ") then
      var parts := SplitWhitespace(line);
      match FaceIndices(parts[1..])
      case Panic => Panic
      case Ok(face) => Ok(FaceLine(face))
    else Ok(OtherLine)
  }

  /** Only lines starting `"v "` or `"f "` contribute anything. */
  lemma OtherLinesSkipped(line: string, parseFloat: string -> Option<real>)
    requires !StartsWith(line, "v ") && !StartsWith(line, "f ")
    ensures ParseLine(line, parseFloat) == Ok(OtherLine)
  {
  }

  /**
   * A vertex line uses whitespace tokens 1 to 3 and ignores any further
   * ones; it panics when a token is missing or does not parse.
   */
  lemma VertexFromTokens(line: string, parseFloat: string -> Option<real>)
    requires StartsWith(line, "v ")
    ensures var parts := SplitWhitespace(line);
      ParseLine(line, parseFloat).Ok? <==>
        (|parts| >= 4 && parseFloat(parts[1]).Some? && parseFloat(parts[2]).Some? && parseFloat(parts[3]).Some?)
    ensures var parts := SplitWhitespace(line);
      ParseLine(line, parseFloat).Ok? ==>
        ParseLine(line, parseFloat).value
          == VertexLine(Vector3D(parseFloat(parts[1]).value, parseFloat(parts[2]).value, parseFloat(parts[3]).value))
  {
  }

  /** The token before the first space of a line is its first token. */
  lemma FirstToken(line: string)
    requires |line| >= 2 && !IsWhitespace(line[0]) && IsWhitespace(line[1])
    ensures SplitWhitespace(line) == [line[..1]] + SplitWhitespace(line[1..])
  {
    assert TokenLength(line) == 1;
  }

  /** A face line is the collected outcomes of its tokens after `"f"`. */
  lemma FaceLineTokens(line: string, parseFloat: string -> Option<real>)
    requires StartsWith(line, "f ")
    ensures ParseLine(line, parseFloat) ==
      match CollectAll(TokenIndices(SplitWhitespace(line[1..])))
      case Panic => Panic
      case Ok(face) => Ok(FaceLine(face))
  {
    assert line[..2] == "f ";
    FirstToken(line);
    assert SplitWhitespace(line)[1..] == SplitWhitespace(line[1..]);
  }

  /**
   * A face line has one index per token after `"f"`, whatever their number;
   * each is the integer before the token's first `'/'`, minus one.
   */
  lemma FaceFromTokens(line: string, parseFloat: string -> Option<real>)
    requires StartsWith(line, "f ")
    ensures var tokens := SplitWhitespace(line[1..]);
      ParseLine(line, parseFloat).Ok? ==>
        var face := ParseLine(line, parseFloat).value.face;
        ParseLine(line, parseFloat).value.FaceLine?
        && |face| == |tokens|
        && forall k :: 0 <= k < |tokens| ==>
             ParseI32(FirstField(tokens[k])).Some? && face[k] == ParseI32(FirstField(tokens[k])).value - 1
  {
    var tokens := SplitWhitespace(line[1..]);
    var rs := TokenIndices(tokens);
    FaceLineTokens(line, parseFloat);
    if CollectAll(rs).Ok? {
      var face := CollectAll(rs).value;
      CollectAllElementwise(rs);
      forall k | 0 <= k < |tokens|
        ensures ParseI32(FirstField(tokens[k])).Some? && face[k] == ParseI32(FirstField(tokens[k])).value - 1
      {
        assert FaceIndex(tokens[k]) == rs[k] == Ok(face[k]);
      }
    }
  }

  /** A face line panics exactly when one of its tokens does. */
  lemma FacePanics(line: string, parseFloat: string -> Option<real>)
    requires StartsWith(line, "f ")
    ensures var tokens := SplitWhitespace(line[1..]);
      ParseLine(line, parseFloat).Panic? <==> exists k :: 0 <= k < |tokens| && FaceIndex(tokens[k]).Panic?
  {
    var tokens := SplitWhitespace(line[1..]);
    var rs := TokenIndices(tokens);
    FaceLineTokens(line, parseFloat);
    CollectAllPanics(rs);
    assert (exists k :: 0 <= k < |rs| && rs[k].Panic?) <==> exists k :: 0 <= k < |tokens| && FaceIndex(tokens[k]).Panic?;
  }

  // ---------------------------------------------------------------------
  // The whole file
  // ---------------------------------------------------------------------

  /** `Model`: the vertices and the faces in file order. */
  datatype Model = Model(vertices: seq<Vector3D>, faces: seq<seq<int>>)

  /** Adds what one line contributes. */
  function Add(m: Model, e: Entry): Model
  {
    match e
    case VertexLine(v) => Model(m.vertices + [v], m.faces)
    case FaceLine(f) => Model(m.vertices, m.faces + [f])
    case OtherLine => m
  }

  /** What `Model::read` returns for the lines of a file. */
  function ReadLines(lines: seq<string>, parseFloat: string -> Option<real>): Outcome<Model>
  {
    if |lines| == 0 then Ok(Model([], []))
    else
      match ReadLines(lines[..|lines| - 1], parseFloat)
      case Panic => Panic
      case Ok(m) =>
        match ParseLine(lines[|lines| - 1], parseFloat)
        case Panic => Panic
        case Ok(e) => Ok(Add(m, e))
  }

  /** Once a prefix of the lines panics, the whole file does. */
  lemma PanicPersists(lines: seq<string>, i: nat, parseFloat: string -> Option<real>)
    requires i <= |lines| && ReadLines(lines[..i], parseFloat).Panic?
    ensures ReadLines(lines, parseFloat).Panic?
  {
    ReadLinesConcat(lines[..i], lines[i..], parseFloat);
    assert lines[..i] + lines[i..] == lines;
  }

  /** Reading one more line adds what that line contributes. */
  lemma ReadLinesStep(lines: seq<string>, i: nat, parseFloat: string -> Option<real>)
    requires i < |lines|
    ensures ReadLines(lines[..i + 1], parseFloat) ==
      match ReadLines(lines[..i], parseFloat)
      case Panic => Panic
      case Ok(m) =>
        match ParseLine(lines[i], parseFloat)
        case Panic => Panic
        case Ok(e) => Ok(Add(m, e))
  {
    assert lines[..i + 1][..i] == lines[..i];
  }

  /** `Model::read`: one pass over the lines, pushing into `verticates` and `faces`. */
  method Read(lines: seq<string>, parseFloat: string -> Option<real>) returns (r: Outcome<Model>)
    ensures r == ReadLines(lines, parseFloat)
  {
    var vertices: seq<Vector3D> := [];
    var faces: seq<seq<int>> := [];
    for i := 0 to |lines|
      invariant ReadLines(lines[..i], parseFloat) == Ok(Model(vertices, faces))
    {
      var line := lines[i];
      ReadLinesStep(lines, i, parseFloat);
      if StartsWith(line, "v ") {
        var parts := SplitWhitespace(line);
        if |parts| < 4 {
          PanicPersists(lines, i + 1, parseFloat);
          return Panic;
        }
        var x := parseFloat(parts[1]);
        var y := parseFloat(parts[2]);
        var z := parseFloat(parts[3]);
        if x.None? || y.None? || z.None? {
          PanicPersists(lines, i + 1, parseFloat);
          return Panic;
        }
        assert ParseLine(line, parseFloat) == Ok(VertexLine(Vector3D(x.value, y.value, z.value)));
        vertices := vertices + [Vector3D(x.value, y.value, z.value)];
      } else if StartsWith(line, "f ") {
        var parts := SplitWhitespace(line);
        parts := parts[1..];
        var face := ReadFace(parts);
        if face.Panic? {
          PanicPersists(lines, i + 1, parseFloat);
          return Panic;
        }
        assert ParseLine(line, parseFloat) == Ok(FaceLine(face.value));
        faces := faces + [face.value];
      }
    }
    assert lines[..|lines|] == lines;
    r := Ok(Model(vertices, faces));
  }

  /** The loop over the tokens of a face line, pushing one index per token into `x`. */
  method ReadFace(parts: seq<string>) returns (r: Outcome<seq<int>>)
    ensures r == FaceIndices(parts)
  {
    ghost var rs := TokenIndices(parts);
    var x: seq<int> := [];
    for k := 0 to |parts|
      invariant CollectAll(rs[..k]) == Ok(x)
    {
      assert rs[..k + 1][..k] == rs[..k];
      var t := FirstField(parts[k]);
      var v := ParseI32(t);
      if v.None? || v.value - 1 < I32Min {
        assert rs[k].Panic?;
        CollectAllPanics(rs);
        return Panic;
      }
      x := x + [v.value - 1];
    }
    assert rs[..|parts|] == rs;
    r := Ok(x);
  }

  /** The lines of a file split anywhere: the two parts read apart add up. */
  lemma {:induction false} ReadLinesConcat(a: seq<string>, b: seq<string>, parseFloat: string -> Option<real>)
    ensures ReadLines(a + b, parseFloat) ==
      match (ReadLines(a, parseFloat), ReadLines(b, parseFloat))
      case (Ok(m1), Ok(m2)) => Ok(Model(m1.vertices + m2.vertices, m1.faces + m2.faces))
      case _ => Panic
    decreases |b|
  {
    if |b| == 0 {
      assert a + b == a;
      match ReadLines(a, parseFloat)
      case Panic =>
      case Ok(m) =>
        assert m.vertices + [] == m.vertices && m.faces + [] == m.faces;
    } else {
      var init := b[..|b| - 1];
      assert (a + b)[..|a + b| - 1] == a + init;
      assert (a + b)[|a + b| - 1] == b[|b| - 1];
      ReadLinesConcat(a, init, parseFloat);
      match (ReadLines(a, parseFloat), ReadLines(init, parseFloat), ParseLine(b[|b| - 1], parseFloat))
      case (Ok(m1), Ok(m2), Ok(e)) =>
        match e {
          case VertexLine(v) =>
            assert m1.vertices + (m2.vertices + [v]) == (m1.vertices + m2.vertices) + [v];
          case FaceLine(f) =>
            assert m1.faces + (m2.faces + [f]) == (m1.faces + m2.faces) + [f];
          case OtherLine =>
        }
      case _ =>
    }
  }

  /** Reading panics exactly when some line panics. */
  lemma {:induction false} ReadLinesPanics(lines: seq<string>, parseFloat: string -> Option<real>)
    ensures ReadLines(lines, parseFloat).Panic? <==>
      exists i :: 0 <= i < |lines| && ParseLine(lines[i], parseFloat).Panic?
  {
    if |lines| > 0 {
      var n := |lines| - 1;
      var init := lines[..n];
      ReadLinesPanics(init, parseFloat);
      if ReadLines(lines, parseFloat).Panic? {
        if ReadLines(init, parseFloat).Panic? {
          var i :| 0 <= i < |init| && ParseLine(init[i], parseFloat).Panic?;
          assert lines[i] == init[i];
        }
      } else {
        forall i | 0 <= i < n
          ensures !ParseLine(lines[i], parseFloat).Panic?
        {
          assert lines[i] == init[i];
        }
      }
    }
  }

  function CountPrefixed(lines: seq<string>, prefix: string): nat
  {
    if |lines| == 0 then 0
    else CountPrefixed(lines[..|lines| - 1], prefix) + (if StartsWith(lines[|lines| - 1], prefix) then 1 else 0)
  }

  /** One vertex per `"v "` line and one face per `"f "` line. */
  lemma {:induction false} ReadLinesCounts(lines: seq<string>, parseFloat: string -> Option<real>)
    ensures ReadLines(lines, parseFloat).Ok? ==>
      |ReadLines(lines, parseFloat).value.vertices| == CountPrefixed(lines, "v ")
      && |ReadLines(lines, parseFloat).value.faces| == CountPrefixed(lines, "f ")
  {
    if |lines| > 0 {
      ReadLinesCounts(lines[..|lines| - 1], parseFloat);
      var last := lines[|lines| - 1];
      if StartsWith(last, "v ") {
        assert !StartsWith(last, "f ") by {
          assert last[..2][0] == 'v';
        }
      }
    }
  }
}
