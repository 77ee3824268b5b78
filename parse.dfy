/** The text format (dyng/parse.h): whitespace reduction, splitting into
    fields, the decimal form of ids as the writer prints them and std::stoi
    reads them back, and the fields of node and edge records. The stream
    readers built on these are in module Readers. */
module Parse {
  import opened Wrappers
  import opened Identifiers

  /** std::isspace in the C locale. */
  predicate IsSpace(c: char)
  {
    c == ' ' || c == '\t' || c == '\n' || c == '\U{000B}' || c == '\U{000C}' || c == '\r'
  }

  // ------------------------------------------------------ reduce_whitespace

  /** What the loop of reduce_whitespace accumulates: every whitespace
      character becomes ' ', and one following another is dropped. */
  function Collapsed(s: string): string
  {
    if s == [] then []
    else
      var init := s[..|s| - 1];
      var c := s[|s| - 1];
      if IsSpace(c) && init != [] && IsSpace(init[|init| - 1]) then Collapsed(init)
      else Collapsed(init) + [if IsSpace(c) then ' ' else c]
  }

  /** The two trims after the loop: one leading ' ', then one trailing ' '. */
  function Trimmed(r: string): string
  {
    var a := if r != [] && r[0] == ' ' then r[1..] else r;
    if a != [] && a[|a| - 1] == ' ' then a[..|a| - 1] else a
  }

  function Reduced(s: string): string
  {
    Trimmed(Collapsed(s))
  }

  /** The only whitespace is ' ', and never two in a row. */
  ghost predicate Tidy(r: string)
  {
    && (forall i :: 0 <= i < |r| && IsSpace(r[i]) ==> r[i] == ' ')
    && (forall i :: 0 <= i < |r| - 1 ==> !(r[i] == ' ' && r[i + 1] == ' '))
  }

  /** The characters of s that are not whitespace, in order. */
  function NonSpace(s: string): string
  {
    if s == [] then [] else NonSpace(s[..|s| - 1]) + (if IsSpace(s[|s| - 1]) then [] else [s[|s| - 1]])
  }

  lemma {:induction false} NonSpaceAppend(a: string, b: string)
    ensures NonSpace(a + b) == NonSpace(a) + NonSpace(b)
    decreases |b|
  {
    if b == [] {
      assert a + b == a;
    } else {
      assert (a + b)[..|a + b| - 1] == a + b[..|b| - 1];
      NonSpaceAppend(a, b[..|b| - 1]);
    }
  }

  /** The accumulated text is tidy, ends in ' ' exactly when the input ends
      in whitespace, is empty only for an empty input, and keeps every other
      character in order. */
  lemma CollapsedSpec(s: string)
    ensures Tidy(Collapsed(s))
    ensures Collapsed(s) == [] <==> s == []
    ensures s != [] ==> (Collapsed(s)[|Collapsed(s)| - 1] == ' ' <==> IsSpace(s[|s| - 1]))
    ensures NonSpace(Collapsed(s)) == NonSpace(s)
  {
    CollapsedShape(s);
    CollapsedKeeps(s);
  }

  lemma {:induction false} CollapsedShape(s: string)
    ensures Tidy(Collapsed(s))
    ensures Collapsed(s) == [] <==> s == []
    ensures s != [] ==> (Collapsed(s)[|Collapsed(s)| - 1] == ' ' <==> IsSpace(s[|s| - 1]))
  {
    if s != [] {
      var init := s[..|s| - 1];
      var c := s[|s| - 1];
      CollapsedShape(init);
      var r := Collapsed(init);
      if !(IsSpace(c) && init != [] && IsSpace(init[|init| - 1])) {
        var x := if IsSpace(c) then ' ' else c;
        var q := r + [x];
        assert Collapsed(s) == q;
        TidyPushed(r, x);
      }
    }
  }

  /** Appending a character keeps a text tidy when it is not whitespace, or
      is ' ' after a character that is not ' '. */
  lemma TidyPushed(r: string, x: char)
    requires Tidy(r)
    requires IsSpace(x) ==> x == ' ' && (r != [] ==> r[|r| - 1] != ' ')
    ensures Tidy(r + [x])
  {
    var q := r + [x];
    forall i | 0 <= i < |q| && IsSpace(q[i]) ensures q[i] == ' ' {
      if i < |r| {
        assert q[i] == r[i];
      }
    }
    forall i | 0 <= i < |q| - 1 ensures !(q[i] == ' ' && q[i + 1] == ' ') {
      assert q[i] == r[i];
      if i + 1 < |r| {
        assert q[i + 1] == r[i + 1];
      }
    }
  }

  lemma {:induction false} CollapsedKeeps(s: string)
    ensures NonSpace(Collapsed(s)) == NonSpace(s)
  {
    if s != [] {
      var init := s[..|s| - 1];
      var c := s[|s| - 1];
      CollapsedKeeps(init);
      var r := Collapsed(init);
      NonSpaceAppend(init, [c]);
      assert s == init + [c];
      assert [c][..0] == [];
      if !(IsSpace(c) && init != [] && IsSpace(init[|init| - 1])) {
        var x := if IsSpace(c) then ' ' else c;
        NonSpaceAppend(r, [x]);
        assert [x][..0] == [];
        assert NonSpace([x]) == NonSpace([c]);
      }
    }
  }

  /** A tidy text is its own accumulation. */
  lemma {:induction false} CollapsedTidy(r: string)
    requires Tidy(r)
    ensures Collapsed(r) == r
  {
    if r != [] {
      var init := r[..|r| - 1];
      assert Tidy(init);
      CollapsedTidy(init);
      if IsSpace(r[|r| - 1]) && init != [] {
        assert r[|r| - 2] != ' ';
      }
      assert r == init + [r[|r| - 1]];
    }
  }

  lemma TrimmedSpec(r: string)
    requires Tidy(r)
    ensures Tidy(Trimmed(r))
    ensures Trimmed(r) != [] ==> Trimmed(r)[0] != ' ' && Trimmed(r)[|Trimmed(r)| - 1] != ' '
    ensures NonSpace(Trimmed(r)) == NonSpace(r)
    ensures r != [] && r[0] != ' ' && r[|r| - 1] != ' ' ==> Trimmed(r) == r
  {
    var a := if r != [] && r[0] == ' ' then r[1..] else r;
    TrimFirst(r);
    TrimLast(a);
  }

  /** Dropping a leading ' ' keeps a tidy text tidy and its other
      characters, and leaves no leading ' '. */
  lemma TrimFirst(r: string)
    requires Tidy(r)
    ensures var a := if r != [] && r[0] == ' ' then r[1..] else r;
      && Tidy(a) && NonSpace(a) == NonSpace(r) && (a != [] ==> a[0] != ' ')
      && (r != [] && r[0] != ' ' ==> a == r)
  {
    if r != [] && r[0] == ' ' {
      var a := r[1..];
      assert r == [' '] + a;
      NonSpaceAppend([' '], a);
      assert [' '][..0] == [];
      assert |a| > 0 ==> a[0] == r[1] && r[0] == ' ';
      forall i | 0 <= i < |a| && IsSpace(a[i]) ensures a[i] == ' ' {
        assert a[i] == r[i + 1];
      }
      forall i | 0 <= i < |a| - 1 ensures !(a[i] == ' ' && a[i + 1] == ' ') {
        assert a[i] == r[i + 1] && a[i + 1] == r[i + 2];
      }
    }
  }

  /** Dropping a trailing ' ' keeps a tidy text tidy and its other
      characters, and leaves no trailing ' ' nor a leading one. */
  lemma TrimLast(a: string)
    requires Tidy(a) && (a != [] ==> a[0] != ' ')
    ensures var b := if a != [] && a[|a| - 1] == ' ' then a[..|a| - 1] else a;
      && Tidy(b) && NonSpace(b) == NonSpace(a) && (b != [] ==> b[0] != ' ' && b[|b| - 1] != ' ')
      && (a != [] && a[|a| - 1] != ' ' ==> b == a)
  {
    if a != [] && a[|a| - 1] == ' ' {
      var b := a[..|a| - 1];
      assert a == b + [' '];
      NonSpaceAppend(b, [' ']);
      assert [' '][..0] == [];
      if |b| > 0 {
        assert b[|b| - 1] == a[|a| - 2] && b[0] == a[0];
      }
      forall i | 0 <= i < |b| && IsSpace(b[i]) ensures b[i] == ' ' {
        assert b[i] == a[i];
      }
      forall i | 0 <= i < |b| - 1 ensures !(b[i] == ' ' && b[i + 1] == ' ') {
        assert b[i] == a[i] && b[i + 1] == a[i + 1];
      }
    }
  }

  /** reduce_whitespace: no leading or trailing space, no two spaces in a
      row, every whitespace character turned into ' ', and every other
      character kept in order. */
  lemma ReducedSpec(s: string)
    ensures Tidy(Reduced(s))
    ensures Reduced(s) != [] ==> Reduced(s)[0] != ' ' && Reduced(s)[|Reduced(s)| - 1] != ' '
    ensures NonSpace(Reduced(s)) == NonSpace(s)
  {
    CollapsedSpec(s);
    TrimmedSpec(Collapsed(s));
  }

  /** Reducing twice is reducing once. */
  lemma ReducedIdempotent(s: string)
    ensures Reduced(Reduced(s)) == Reduced(s)
  {
    ReducedSpec(s);
    var r := Reduced(s);
    CollapsedTidy(r);
    if r != [] {
      TrimmedSpec(r);
    }
  }

  /** reduce_whitespace: the loop with its `ignore` flag, then the trims. */
  method ReduceWhitespace(str: string) returns (result: string)
    ensures result == Reduced(str)
  {
    result := [];
    var ignore := false;
    var i := 0;
    while i < |str|
      invariant i <= |str|
      invariant result == Collapsed(str[..i])
      invariant ignore <==> i > 0 && IsSpace(str[i - 1])
    {
      var ch := str[i];
      var white := IsSpace(ch);
      assert str[..i + 1][..i] == str[..i];
      if !ignore || !white {
        result := result + [if white then ' ' else ch];
      }
      ignore := white;
      i := i + 1;
    }
    assert str[..i] == str;
    if result != [] && result[0] == ' ' {
      result := result[1..];
    }
    if result != [] && result[|result| - 1] == ' ' {
      result := result[..|result| - 1];
    }
  }

  // ------------------------------------------------------------------ split

  /** Every piece between delimiters, the one after the last delimiter
      included (possibly empty). */
  function Pieces(s: string, d: char): (p: seq<string>)
    ensures |p| >= 1
  {
    if s == [] then [[]]
    else
      var p := Pieces(s[..|s| - 1], d);
      var c := s[|s| - 1];
      if c == d then p + [[]] else p[..|p| - 1] + [p[|p| - 1] + [c]]
  }

  /** split: the pieces, except that the empty input gives none and a final
      delimiter closes the last piece without opening another. */
  function Split(s: string, d: char): seq<string>
  {
    if s == [] then []
    else if s[|s| - 1] == d then Pieces(s, d)[..|Pieces(s, d)| - 1]
    else Pieces(s, d)
  }

  /** The pieces with the delimiter between each two. */
  function Join(ps: seq<string>, d: char): string
  {
    if ps == [] then []
    else if |ps| == 1 then ps[0]
    else Join(ps[..|ps| - 1], d) + [d] + ps[|ps| - 1]
  }

  function CountChar(s: string, d: char): nat
  {
    if s == [] then 0 else CountChar(s[..|s| - 1], d) + (if s[|s| - 1] == d then 1 else 0)
  }

  /** The pieces hold no delimiter, there is one more of them than there are
      delimiters, and joining them gives the text back. */
  lemma PiecesSpec(s: string, d: char)
    ensures forall k :: 0 <= k < |Pieces(s, d)| ==> d !in Pieces(s, d)[k]
    ensures |Pieces(s, d)| == CountChar(s, d) + 1
    ensures Join(Pieces(s, d), d) == s
  {
    PiecesFree(s, d);
    PiecesCount(s, d);
    PiecesJoin(s, d);
  }

  lemma {:induction false} PiecesFree(s: string, d: char)
    ensures forall k :: 0 <= k < |Pieces(s, d)| ==> d !in Pieces(s, d)[k]
  {
    if s != [] {
      var init := s[..|s| - 1];
      PiecesFree(init, d);
      var p := Pieces(init, d);
      if s[|s| - 1] != d {
        var q := p[..|p| - 1] + [p[|p| - 1] + [s[|s| - 1]]];
        forall k | 0 <= k < |q| ensures d !in q[k] {
          if k < |q| - 1 {
            assert q[k] == p[k];
          }
        }
      }
    }
  }

  lemma {:induction false} PiecesCount(s: string, d: char)
    ensures |Pieces(s, d)| == CountChar(s, d) + 1
  {
    if s != [] {
      PiecesCount(s[..|s| - 1], d);
    }
  }

  lemma {:induction false} PiecesJoin(s: string, d: char)
    ensures Join(Pieces(s, d), d) == s
  {
    if s != [] {
      var init := s[..|s| - 1];
      var c := s[|s| - 1];
      PiecesJoin(init, d);
      var p := Pieces(init, d);
      assert s == init + [c];
      if c == d {
        JoinPushed(p, [], d);
      } else {
        JoinExtended(p, c, d);
      }
    }
  }

  /** Joining one more piece adds a delimiter and that piece. */
  lemma JoinPushed(ps: seq<string>, x: string, d: char)
    requires ps != []
    ensures Join(ps + [x], d) == Join(ps, d) + [d] + x
  {
    assert (ps + [x])[..|ps|] == ps;
  }

  /** Extending the last piece extends the joined text. */
  lemma JoinExtended(ps: seq<string>, c: char, d: char)
    requires ps != []
    ensures Join(ps[..|ps| - 1] + [ps[|ps| - 1] + [c]], d) == Join(ps, d) + [c]
  {
    var q := ps[..|ps| - 1] + [ps[|ps| - 1] + [c]];
    if |ps| > 1 {
      assert q[..|q| - 1] == ps[..|ps| - 1];
    }
  }

  /** Appending a delimiter and a delimiter-free text adds that text as one
      more piece. */
  lemma {:induction false} PiecesAppend(x: string, d: char, y: string)
    requires d !in y
    ensures Pieces(x + [d] + y, d) == Pieces(x, d) + [y]
    decreases |y|
  {
    if y == [] {
      assert (x + [d] + y)[..|x + [d] + y| - 1] == x;
    } else {
      var y' := y[..|y| - 1];
      PiecesAppend(x, d, y');
      assert (x + [d] + y)[..|x + [d] + y| - 1] == x + [d] + y';
      assert y == y' + [y[|y| - 1]];
    }
  }

  /** A delimiter-free text is a single piece. */
  lemma {:induction false} PiecesSingle(y: string, d: char)
    requires d !in y
    ensures Pieces(y, d) == [y]
  {
    if y != [] {
      PiecesSingle(y[..|y| - 1], d);
      assert y == y[..|y| - 1] + [y[|y| - 1]];
    }
  }

  /** The first piece of a text that starts with the delimiter is empty. */
  lemma {:induction false} PiecesLeading(s: string, d: char)
    requires s != [] && s[0] == d
    ensures Pieces(s, d)[0] == []
    ensures |Pieces(s, d)| >= 2
  {
    if |s| == 1 {
      assert s[..0] == [];
    } else {
      var init := s[..|s| - 1];
      PiecesLeading(init, d);
    }
  }

  /** split: no piece holds the delimiter; the empty text gives no pieces; a
      leading delimiter gives a leading empty piece; joining the pieces gives
      the text back, without the final delimiter when the text ends in one;
      the pieces number the delimiters, plus one when the text does not end
      in one. */
  lemma SplitSpec(s: string, d: char)
    ensures forall k :: 0 <= k < |Split(s, d)| ==> d !in Split(s, d)[k]
    ensures s == [] ==> Split(s, d) == []
    ensures s != [] && s[0] == d ==> Split(s, d) != [] && Split(s, d)[0] == []
    ensures s != [] && s[|s| - 1] != d ==> Join(Split(s, d), d) == s && |Split(s, d)| == CountChar(s, d) + 1
    ensures s != [] && s[|s| - 1] == d ==> Join(Split(s, d), d) + [d] == s && |Split(s, d)| == CountChar(s, d)
  {
    PiecesSpec(s, d);
    if s != [] && s[0] == d {
      PiecesLeading(s, d);
    }
    if s != [] && s[|s| - 1] == d {
      var init := s[..|s| - 1];
      PiecesSpec(init, d);
      assert s == init + [d];
      assert Pieces(s, d) == Pieces(init, d) + [[]];
      assert Split(s, d) == Pieces(init, d);
    }
  }

  /** split: the loop with its chunk accumulator, pushing at each delimiter
      and at the last character. */
  method SplitText(str: string, dlm: char) returns (result: seq<string>)
    ensures result == Split(str, dlm)
  {
    result := [];
    var chunk: string := [];
    var i := 0;
    while i < |str|
      invariant i <= |str|
      invariant i < |str| ==> result + [chunk] == Pieces(str[..i], dlm)
      invariant i == |str| ==> result == Split(str, dlm)
    {
      ghost var p := Pieces(str[..i], dlm);
      PiecesStep(str, i, dlm);
      ghost var next := Pieces(str[..i + 1], dlm);
      assert result == p[..|p| - 1] && chunk == p[|p| - 1];
      if str[i] != dlm {
        chunk := chunk + [str[i]];
        assert next == result + [chunk];
      } else {
        assert next == result + [chunk] + [[]];
      }
      if str[i] == dlm || i == |str| - 1 {
        result := result + [chunk];
        chunk := [];
      }
      if i == |str| - 1 {
        assert str[..i + 1] == str;
        assert result == Split(str, dlm) by {
          if str[i] == dlm {
            assert next[..|next| - 1] == result;
          }
        }
      }
      i := i + 1;
    }
  }

  /** One more character either opens a new piece or extends the last one. */
  lemma PiecesStep(s: string, i: nat, d: char)
    requires i < |s|
    ensures var p := Pieces(s[..i], d);
      Pieces(s[..i + 1], d) == if s[i] == d then p + [[]] else p[..|p| - 1] + [p[|p| - 1] + [s[i]]]
  {
    assert s[..i + 1][..i] == s[..i];
  }

  // -------------------------------------------------------- decimal numbers

  predicate IsDigit(c: char)
  {
    '0' <= c <= '9'
  }

  function DigitChar(d: nat): (c: char)
    requires d < 10
    ensures IsDigit(c)
  {
    (d + '0' as int) as char
  }

  function DigitValue(c: char): nat
    requires IsDigit(c)
  {
    c as int - '0' as int
  }

  /** How an unsigned id is printed: its decimal digits, no leading zero. */
  function Decimal(n: nat): string
  {
    if n < 10 then [DigitChar(n)] else Decimal(n / 10) + [DigitChar(n % 10)]
  }

  /** The value of a string of digits. */
  function DigitsValue(s: string): nat
    requires forall i :: 0 <= i < |s| ==> IsDigit(s[i])
  {
    if s == [] then 0 else DigitsValue(s[..|s| - 1]) * 10 + DigitValue(s[|s| - 1])
  }

  /** The length of the longest run of digits s starts with. */
  function DigitPrefix(s: string): (k: nat)
    ensures k <= |s|
    ensures forall i :: 0 <= i < k ==> IsDigit(s[i])
    ensures k < |s| ==> !IsDigit(s[k])
  {
    if s == [] || !IsDigit(s[0]) then 0 else 1 + DigitPrefix(s[1..])
  }

  /** Decimal prints only digits, at least one, and they read back as n. */
  lemma {:induction false} DecimalSpec(n: nat)
    ensures Decimal(n) != []
    ensures forall i :: 0 <= i < |Decimal(n)| ==> IsDigit(Decimal(n)[i])
    ensures DigitsValue(Decimal(n)) == n
  {
    if n >= 10 {
      DecimalSpec(n / 10);
      var s := Decimal(n);
      assert s[..|s| - 1] == Decimal(n / 10);
    }
  }

  /** std::stoi on a piece without leading whitespace: an optional sign, then
      the longest run of digits; invalid_argument without digits,
      out_of_range outside the 32-bit int range. */
  function Stoi(s: string): Result<int>
  {
    var signed := s != [] && (s[0] == '-' || s[0] == '+');
    var body := if signed then s[1..] else s;
    var k := DigitPrefix(body);
    if k == 0 then Err(InvalidArgument)
    else
      var magnitude: int := DigitsValue(body[..k]);
      var v := if s[0] == '-' then -magnitude else magnitude;
      if v < -0x8000_0000 || v > 0x7FFF_FFFF then Err(OutOfRange) else Ok(v)
  }

  /** A printed id reads back when it fits an int, and is out of range
      otherwise. */
  lemma StoiDecimal(n: nat)
    ensures n <= 0x7FFF_FFFF ==> Stoi(Decimal(n)) == Ok(n)
    ensures n > 0x7FFF_FFFF ==> Stoi(Decimal(n)) == Err(OutOfRange)
  {
    DecimalSpec(n);
    var s := Decimal(n);
    assert !IsDigit('-') && !IsDigit('+');
    assert DigitPrefix(s) == |s|;
    assert s[..|s|] == s;
  }

  /** The int std::stoi returned, converted to the unsigned value of an id. */
  function ToU32(v: int): u32
  {
    v % U32_LIMIT
  }

  // -------------------------------------------------------- node and edge records

  /** The body of an edge record (after `e`, before `;`): reduced and split
      on spaces, it must have exactly three fields, each read by std::stoi;
      any failure is the runtime_error the reader throws. */
  function EdgeFields(text: string): Result<(EdgeId, NodeId, NodeId)>
  {
    EdgeBits(Split(Reduced(text), ' '))
  }

  /** The three fields of an edge record, once split. */
  function EdgeBits(bits: seq<string>): Result<(EdgeId, NodeId, NodeId)>
  {
    if |bits| != 3 then Err(RuntimeError)
    else
      var a := Stoi(bits[0]);
      var b := Stoi(bits[1]);
      var c := Stoi(bits[2]);
      if a.Err? || b.Err? || c.Err? then Err(RuntimeError)
      else Ok((Id(ToU32(a.value)), Id(ToU32(b.value)), Id(ToU32(c.value))))
  }

  /** The body of a node record: three fields, the id read by std::stoi and
      the coordinates by `stof`, a parameter standing for std::stof. */
  function NodeFields(text: string, stof: string -> Result<real>): Result<(NodeId, real, real)>
  {
    NodeBits(Split(Reduced(text), ' '), stof)
  }

  /** The three fields of a node record, once split. */
  function NodeBits(bits: seq<string>, stof: string -> Result<real>): Result<(NodeId, real, real)>
  {
    if |bits| != 3 then Err(RuntimeError)
    else
      var a := Stoi(bits[0]);
      if a.Err? then Err(RuntimeError)
      else
        var x := stof(bits[1]);
        var y := stof(bits[2]);
        if x.Err? || y.Err? then Err(RuntimeError)
        else Ok((Id(ToU32(a.value)), x.value, y.value))
  }

  /** The node and edge readers fail unless the reduced body splits into
      exactly three fields. */
  lemma FieldCount(text: string, stof: string -> Result<real>)
    ensures |Split(Reduced(text), ' ')| != 3 ==> EdgeFields(text) == Err(RuntimeError)
    ensures |Split(Reduced(text), ' ')| != 3 ==> NodeFields(text, stof) == Err(RuntimeError)
    ensures EdgeFields(text).Err? ==> EdgeFields(text).error == RuntimeError
    ensures NodeFields(text, stof).Err? ==> NodeFields(text, stof).error == RuntimeError
  {
  }

  /** operator<< for an edge: `e id one two;`. */
  function WriteEdge(id: EdgeId, one: NodeId, two: NodeId): string
  {
    "e " + EdgeBody(id, one, two) + ";"
  }

  function EdgeBody(id: EdgeId, one: NodeId, two: NodeId): string
  {
    Decimal(id.value) + " " + Decimal(one.value) + " " + Decimal(two.value)
  }

  /** Two tidy texts joined by one space stay tidy when neither has a space
      next to the join. */
  lemma SpacedTidy(a: string, b: string)
    requires Tidy(a) && Tidy(b)
    requires a != [] ==> a[|a| - 1] != ' '
    requires b != [] && b[0] != ' '
    ensures Tidy(a + [' '] + b)
  {
    var t := a + [' '] + b;
    forall i | 0 <= i < |t| - 1
      ensures !(t[i] == ' ' && t[i + 1] == ' ')
    {
      if i < |a| - 1 {
        assert t[i] == a[i] && t[i + 1] == a[i + 1];
      } else if i > |a| {
        assert t[i] == b[i - |a| - 1] && t[i + 1] == b[i - |a|];
      }
    }
  }

  /** A printed id is tidy, non-empty, and holds no space and no `;`. */
  lemma DecimalTidy(n: nat)
    ensures Tidy(Decimal(n)) && Decimal(n) != []
    ensures Decimal(n)[0] != ' ' && Decimal(n)[|Decimal(n)| - 1] != ' '
    ensures ' ' !in Decimal(n) && ';' !in Decimal(n)
  {
    DecimalSpec(n);
  }

  /** The body of a written edge, with the space after `e`, reduces to
      itself without that space. */
  lemma EdgeBodyReduced(id: EdgeId, one: NodeId, two: NodeId)
    ensures Reduced(" " + EdgeBody(id, one, two)) == EdgeBody(id, one, two)
    ensures ';' !in EdgeBody(id, one, two)
  {
    var a, b, c := Decimal(id.value), Decimal(one.value), Decimal(two.value);
    DecimalTidy(id.value);
    DecimalTidy(one.value);
    DecimalTidy(two.value);
    SpacedTidy(b, c);
    var bc := b + [' '] + c;
    SpacedTidy(a, bc);
    var abc := a + [' '] + bc;
    SpacedTidy([], abc);
    assert EdgeBody(id, one, two) == abc;
    var t := " " + abc;
    assert t == [] + [' '] + abc;
    CollapsedTidy(t);
    assert Trimmed(t) == abc;
  }

  /** The body of a written edge splits into the three printed ids. */
  lemma EdgeBodySplit(id: EdgeId, one: NodeId, two: NodeId)
    ensures Split(EdgeBody(id, one, two), ' ') == [Decimal(id.value), Decimal(one.value), Decimal(two.value)]
  {
    var a, b, c := Decimal(id.value), Decimal(one.value), Decimal(two.value);
    DecimalTidy(id.value);
    DecimalTidy(one.value);
    DecimalTidy(two.value);
    PiecesSingle(a, ' ');
    PiecesAppend(a, ' ', b);
    PiecesAppend(a + [' '] + b, ' ', c);
    var body := EdgeBody(id, one, two);
    assert body == a + [' '] + b + [' '] + c;
    assert body[|body| - 1] == c[|c| - 1];
  }

  /** Whether each of an edge's three ids fits the int std::stoi returns. */
  predicate FitsInt(id: EdgeId, one: NodeId, two: NodeId)
  {
    id.value <= 0x7FFF_FFFF && one.value <= 0x7FFF_FFFF && two.value <= 0x7FFF_FFFF
  }

  /** Writing an edge and reading its body back gives the same three ids
      when each fits an int; an id above that is out of range for std::stoi,
      and the record is rejected. */
  lemma EdgeRoundTrip(id: EdgeId, one: NodeId, two: NodeId)
    ensures var w := WriteEdge(id, one, two);
      && |w| >= 2 && w[0] == 'e' && w[|w| - 1] == ';' && ';' !in w[1..|w| - 1]
      && EdgeFields(w[1..|w| - 1]) == if FitsInt(id, one, two) then Ok((id, one, two)) else Err(RuntimeError)
  {
    var w := WriteEdge(id, one, two);
    var t := " " + EdgeBody(id, one, two);
    assert w == ['e'] + t + [';'];
    assert w[1..|w| - 1] == t;
    EdgeBodyReduced(id, one, two);
    EdgeBodySplit(id, one, two);
    EdgeBitsDecimal(id, one, two);
    assert EdgeFields(t) == EdgeBits([Decimal(id.value), Decimal(one.value), Decimal(two.value)]);
  }

  lemma EdgeBitsDecimal(id: EdgeId, one: NodeId, two: NodeId)
    ensures EdgeBits([Decimal(id.value), Decimal(one.value), Decimal(two.value)])
      == if FitsInt(id, one, two) then Ok((id, one, two)) else Err(RuntimeError)
  {
    StoiDecimal(id.value);
    StoiDecimal(one.value);
    StoiDecimal(two.value);
    if FitsInt(id, one, two) {
      ToU32Small(id.value);
      ToU32Small(one.value);
      ToU32Small(two.value);
    }
  }

  lemma ToU32Small(n: nat)
    requires n < U32_LIMIT
    ensures ToU32(n) == n
  {
  }

  /** An id the writer prints but std::stoi cannot read: an edge whose id is
      2^31 is written, and its record is then rejected. */
  lemma LargeIdNotRead(one: NodeId, two: NodeId)
    ensures var w := WriteEdge(Id(0x8000_0000), one, two);
      |w| >= 2 && EdgeFields(w[1..|w| - 1]).Err?
  {
    EdgeRoundTrip(Id(0x8000_0000), one, two);
  }
}

/** The stream readers of dyng/parse.h: a cursor over the remaining input
    with std::istream's good() flag, skip_until, read_until, validate, and the
    node, edge, graph and dynamic-graph readers. */
module Readers {
  import opened Wrappers
  import opened Identifiers
  import opened Nodes
  import opened Edges
  import opened Graphs
  import opened Parse
  import opened DynamicGraphs

  /** What get() and peek() return: a character, or end of input. */
  datatype Got = Char(c: char) | Eof

  /** The part of std::istream the readers use: the characters not yet read
      and whether the stream is still good. Reading at the end, or from a
      stream that is no longer good, gives Eof and clears good. */
  class Input {
    var rest: string
    var good: bool

    constructor (text: string)
      ensures rest == text && good
    {
      rest := text;
      good := true;
    }

    /** Decreases with every read that consumes or fails. */
    function Measure(): nat
      reads this
    {
      |rest| + (if good then 1 else 0)
    }

    method Get() returns (g: Got)
      modifies this
      ensures if old(good) && old(rest) != []
        then g == Char(old(rest)[0]) && rest == old(rest)[1..] && good
        else g == Eof && rest == old(rest) && !good
    {
      if good && rest != [] {
        g := Char(rest[0]);
        rest := rest[1..];
      } else {
        g := Eof;
        good := false;
      }
    }

    method Peek() returns (g: Got)
      modifies this
      ensures rest == old(rest)
      ensures if old(good) && old(rest) != [] then g == Char(rest[0]) && good else g == Eof && !good
    {
      if good && rest != [] {
        g := Char(rest[0]);
      } else {
        g := Eof;
        good := false;
      }
    }
  }

  /** a is what is left of b after reading some of it. */
  predicate SuffixOf(a: string, b: string)
  {
    |a| <= |b| && a == b[|b| - |a|..]
  }

  lemma SuffixTrans(a: string, b: string, c: string)
    requires SuffixOf(a, b) && SuffixOf(b, c)
    ensures SuffixOf(a, c)
  {
  }

  /** a is what is left of b after reading up to and including a `ch`. */
  predicate ClosedBy(a: string, b: string, ch: char)
  {
    SuffixOf(a, b) && |a| < |b| && b[|b| - |a| - 1] == ch
  }

  /** The position of the first `ch`. */
  function IndexOf(s: string, ch: char): (k: nat)
    requires ch in s
    ensures k < |s| && s[k] == ch && ch !in s[..k]
  {
    if s[0] == ch then 0
    else
      assert ch in s[1..] by {
        var j :| 0 <= j < |s| && s[j] == ch;
        assert s[1..][j - 1] == ch;
      }
      var k := IndexOf(s[1..], ch);
      assert s[..k + 1] == [s[0]] + s[1..][..k];
      1 + k
  }

  lemma IndexOfAt(s: string, ch: char, k: nat)
    requires k < |s| && s[k] == ch && ch !in s[..k]
    ensures IndexOf(s, ch) == k
  {
  }

  /** The position of the first character that is not whitespace, |s| if none. */
  function FirstNonSpace(s: string): (k: nat)
    ensures k <= |s|
    ensures forall i :: 0 <= i < k ==> IsSpace(s[i])
    ensures k < |s| ==> !IsSpace(s[k])
  {
    if s == [] || !IsSpace(s[0]) then 0 else 1 + FirstNonSpace(s[1..])
  }

  // ------------------------------------------------------------- primitives

  /** skip_until: consume through the first `ch` and report true, or run the
      stream out and report false. */
  method SkipUntil(input: Input, ch: char) returns (found: bool)
    modifies input
    ensures found <==> old(input.good) && ch in old(input.rest)
    ensures found ==> input.good && input.rest == old(input.rest)[IndexOf(old(input.rest), ch) + 1..]
    ensures !found ==> !input.good
    ensures SuffixOf(input.rest, old(input.rest))
    ensures old(input.good) ==> input.Measure() < old(input.Measure())
  {
    ghost var s0 := input.rest;
    ghost var g0 := input.good;
    while true
      invariant SuffixOf(input.rest, s0)
      invariant ch !in s0[..|s0| - |input.rest|]
      invariant input.good ==> g0
      invariant !input.good ==> (!g0 && input.rest == s0) || input.rest == []
      decreases input.Measure()
    {
      if !input.good {
        assert g0 ==> s0[..|s0| - |input.rest|] == s0;
        return false;
      }
      ghost var i := |s0| - |input.rest|;
      var c := input.Get();
      if c == Char(ch) {
        assert s0[i] == ch;
        IndexOfAt(s0, ch, i);
        return true;
      }
      if c.Char? {
        assert s0[..i + 1] == s0[..i] + [s0[i]];
      }
    }
  }

  /** read_until: the text before the first `ch`, with `ch` consumed; a
      runtime_error when the stream ends first. */
  method ReadUntil(input: Input, ch: char) returns (r: Result<string>)
    modifies input
    ensures r.Ok? <==> old(input.good) && ch in old(input.rest)
    ensures r.Ok? ==>
      var k := IndexOf(old(input.rest), ch);
      r.value == old(input.rest)[..k] && input.rest == old(input.rest)[k + 1..] && input.good
    ensures r.Err? ==> r.error == RuntimeError && !input.good
    ensures SuffixOf(input.rest, old(input.rest))
    ensures old(input.good) ==> input.Measure() < old(input.Measure())
  {
    ghost var s0 := input.rest;
    ghost var g0 := input.good;
    var result: string := [];
    while true
      invariant SuffixOf(input.rest, s0)
      invariant result == s0[..|s0| - |input.rest|]
      invariant ch !in result
      invariant input.good ==> g0
      invariant !input.good ==> (!g0 && input.rest == s0) || input.rest == []
      decreases input.Measure()
    {
      if !input.good {
        assert g0 ==> result == s0;
        return Err(RuntimeError);
      }
      ghost var i := |s0| - |input.rest|;
      var last := input.Get();
      if last == Char(ch) {
        assert s0[i] == ch;
        IndexOfAt(s0, ch, i);
        return Ok(result);
      }
      if last.Char? {
        assert s0[..i + 1] == s0[..i] + [s0[i]];
        result := result + [last.c];
      }
    }
  }

  /** validate: whitespace is accepted; end of input and any other
      character are a runtime_error. */
  function Validate(g: Got): (r: Result<()>)
    ensures r.Ok? <==> g.Char? && IsSpace(g.c)
    ensures r.Err? ==> r.error == RuntimeError
  {
    match g
    case Eof => Err(RuntimeError)
    case Char(c) => if IsSpace(c) then Ok(()) else Err(RuntimeError)
  }

  // --------------------------------------------------------- node and edge readers

  /** Where a record reader finds its record: no `tag` left, a `tag` with no
      `;` after it, or the body between them and the input after the `;`. */
  datatype Located = NoTag | Unterminated | Found(body: string, rest: string)

  function FindRecord(good: bool, s: string, tag: char): (l: Located)
    ensures l.NoTag? <==> !(good && tag in s)
    ensures l.Found? ==> SuffixOf(l.rest, s) && |l.rest| < |s| && ';' !in l.body
  {
    if !(good && tag in s) then NoTag
    else
      var after := s[IndexOf(s, tag) + 1..];
      if ';' !in after then Unterminated
      else Found(after[..IndexOf(after, ';')], after[IndexOf(after, ';') + 1..])
  }


  /** The node a record's fields describe: node(id) moved to (x, y). */
  function NodeOf(fields: (NodeId, real, real)): (n: Node<()>)
    ensures n.id == fields.0 && n.pos == Coords(fields.1, fields.2)
    ensures n.alpha == 1.0 && !n.isNew && !n.isOld
  {
    NewNode(fields.0, ()).(pos := Coords(fields.1, fields.2))
  }

  /** operator>> for a node: nothing when no `n` is left (None); otherwise
      the record up to `;`, reduced, split, and read as three fields.
      `stof` stands for std::stof. */
  method ReadNode(input: Input, stof: string -> Result<real>) returns (r: Result<Option<Node<()>>>)
    modifies input
    ensures var l := FindRecord(old(input.good), old(input.rest), 'n');
      && (l.NoTag? ==> r == Ok(None) && !input.good)
      && (l.Unterminated? ==> r == Err(RuntimeError) && !input.good)
      && (l.Found? ==>
            && input.good && input.rest == l.rest
            && r == (if NodeFields(l.body, stof).Ok? then Ok(Some(NodeOf(NodeFields(l.body, stof).value))) else Err(RuntimeError)))
    ensures SuffixOf(input.rest, old(input.rest))
    ensures old(input.good) ==> input.Measure() < old(input.Measure())
  {
    ghost var s := input.rest;
    ghost var l := FindRecord(input.good, s, 'n');
    var found := SkipUntil(input, 'n');
    if !found {
      return Ok(None);
    }
    ghost var after := input.rest;
    assert after == s[IndexOf(s, 'n') + 1..];
    var text := ReadUntil(input, ';');
    SuffixTrans(input.rest, after, s);
    if text.Err? {
      assert l == Unterminated;
      return Err(RuntimeError);
    }
    assert l == Found(text.value, input.rest);
    var str := ReduceWhitespace(text.value);
    var bits := SplitText(str, ' ');
    if |bits| != 3 {
      return Err(RuntimeError);
    }
    var fields := NodeBits(bits, stof);
    assert fields == NodeFields(text.value, stof);
    if fields.Err? {
      return Err(RuntimeError);
    }
    r := Ok(Some(NodeOf(fields.value)));
  }

  /** operator>> for an edge: nothing when no `e` is left (None); otherwise
      the record up to `;`, reduced, split, and read as three ids. */
  method ReadEdge(input: Input) returns (r: Result<Option<(EdgeId, NodeId, NodeId)>>)
    modifies input
    ensures var l := FindRecord(old(input.good), old(input.rest), 'e');
      && (l.NoTag? ==> r == Ok(None) && !input.good)
      && (l.Unterminated? ==> r == Err(RuntimeError) && !input.good)
      && (l.Found? ==>
            && input.good && input.rest == l.rest
            && r == (if EdgeFields(l.body).Ok? then Ok(Some(EdgeFields(l.body).value)) else Err(RuntimeError)))
    ensures SuffixOf(input.rest, old(input.rest))
    ensures old(input.good) ==> input.Measure() < old(input.Measure())
  {
    ghost var s := input.rest;
    ghost var l := FindRecord(input.good, s, 'e');
    var found := SkipUntil(input, 'e');
    if !found {
      return Ok(None);
    }
    ghost var after := input.rest;
    assert after == s[IndexOf(s, 'e') + 1..];
    var text := ReadUntil(input, ';');
    SuffixTrans(input.rest, after, s);
    if text.Err? {
      assert l == Unterminated;
      return Err(RuntimeError);
    }
    assert l == Found(text.value, input.rest);
    var str := ReduceWhitespace(text.value);
    var bits := SplitText(str, ' ');
    if |bits| != 3 {
      return Err(RuntimeError);
    }
    var fields := EdgeBits(bits);
    assert fields == EdgeFields(text.value);
    if fields.Err? {
      return Err(RuntimeError);
    }
    r := Ok(Some(fields.value));
  }

  /** A written edge record, whatever follows it, is found at once, leaving
      the rest of the input, and its body reads back as the three ids it was
      written from when they fit an int, and as a runtime_error otherwise. */
  lemma ReadWrittenEdge(id: EdgeId, one: NodeId, two: NodeId, tail: string)
    ensures var l := FindRecord(true, WriteEdge(id, one, two) + tail, 'e');
      && l.Found? && l.rest == tail
      && EdgeFields(l.body) == if FitsInt(id, one, two) then Ok((id, one, two)) else Err(RuntimeError)
  {
    var w := WriteEdge(id, one, two);
    EdgeRoundTrip(id, one, two);
    var body := w[1..|w| - 1];
    assert w == ['e'] + body + [';'];
    FindRecordAt('e', body, tail);
  }

  /** A record right at the start of the input is found with its body and
      the input after its `;`. */
  lemma FindRecordAt(tag: char, body: string, tail: string)
    requires ';' !in body
    ensures FindRecord(true, [tag] + body + [';'] + tail, tag) == Found(body, tail)
  {
    var s := [tag] + body + [';'] + tail;
    var after := s[1..];
    assert after == body + [';'] + tail;
    assert after[..|body|] == body;
    IndexOfAt(after, ';', |body|);
    assert after[|body| + 1..] == tail;
    FindRecordHead(s, tag);
  }

  /** A record whose tag opens the input ends at the first `;` after it. */
  lemma FindRecordHead(s: string, tag: char)
    requires s != [] && s[0] == tag && ';' in s[1..]
    ensures var k := IndexOf(s[1..], ';'); FindRecord(true, s, tag) == Found(s[1..][..k], s[1..][k + 1..])
  {
    assert s[..0] == [];
    IndexOfAt(s, tag, 0);
  }

  // ------------------------------------------------------------ frame reader

  /** The `n` case of the frame reader: the node record read and pushed. */
  method NodeCase(input: Input, g: GraphState, stof: string -> Result<real>) returns (r: Result<GraphState>)
    requires g.Valid() && input.good && input.rest != [] && input.rest[0] == 'n'
    modifies input
    ensures r.Ok? ==> r.value.Valid() && r.value.edges == g.edges && input.good && |input.rest| < |old(input.rest)|
    ensures r.Err? ==> r.error == RuntimeError
    ensures var l := FindRecord(true, old(input.rest), 'n');
      && (r.Ok? <==> l.Found? && NodeFields(l.body, stof).Ok?)
      && (r.Ok? ==> r.value == PushNode(g, NodeOf(NodeFields(l.body, stof).value)) && input.rest == l.rest)
    ensures var t := NodeItem(FindRecord(true, old(input.rest), 'n'), g, stof);
      if r.Ok? then t == (Next(r.value), input.rest) else t.0 == Stop(r)
    ensures SuffixOf(input.rest, old(input.rest))
  {
    var n := ReadNode(input, stof);
    if n.Err? {
      return Err(n.error);
    }
    if n.value.None? {
      assert false;
    }
    PushNodeSpec(g, n.value.value);
    r := Ok(PushNode(g, n.value.value));
  }

  /** The `e` case of the frame reader: the edge record read and pushed,
      invalid_graph when an endpoint is missing. */
  method EdgeCase(input: Input, g: GraphState) returns (r: Result<GraphState>)
    requires g.Valid() && input.good && input.rest != [] && input.rest[0] == 'e'
    modifies input
    ensures r.Ok? ==> r.value.Valid() && r.value.nodes == g.nodes && input.good && |input.rest| < |old(input.rest)|
    ensures r.Err? ==> r.error == RuntimeError || r.error == InvalidGraph
    ensures var l := FindRecord(true, old(input.rest), 'e');
      && (!(l.Found? && EdgeFields(l.body).Ok?) ==> r == Err(RuntimeError))
      && (l.Found? && EdgeFields(l.body).Ok? ==>
            var (id, one, two) := EdgeFields(l.body).value;
            && (r == Err(InvalidGraph) <==> id !in g.edges.index && (one !in g.nodes.index || two !in g.nodes.index))
            && (r.Ok? ==> r == PushEdge(g, NewEdge(id, one, two, ())) && input.rest == l.rest))
    ensures var t := EdgeItem(FindRecord(true, old(input.rest), 'e'), g);
      if r.Ok? then t == (Next(r.value), input.rest) else t.0 == Stop(r)
    ensures SuffixOf(input.rest, old(input.rest))
  {
    var e := ReadEdge(input);
    if e.Err? {
      return Err(e.error);
    }
    if e.value.None? {
      assert false;
    }
    var (id, one, two) := e.value.value;
    var edge := NewEdge(id, one, two, ());
    PushEdgeSpec(g, edge);
    var pushed := PushEdge(g, edge);
    if pushed.Err? {
      return Err(InvalidGraph);
    }
    r := pushed;
  }

  /** How a reader that opened with `open` ends, decided by the first
      character of `after` that is not whitespace: `close` ends it with
      `start` as the result, running out of input is `ending`, and a
      character other than `close` and those in `items` is a runtime_error. */
  ghost predicate Opening<T>(after: string, close: char, items: set<char>, r: Result<T>, start: T, ending: Error, rest: string)
  {
    var k := FirstNonSpace(after);
    && (k == |after| ==> r == Err(ending))
    && (k < |after| && after[k] == close ==> r == Ok(start) && rest == after[k + 1..])
    && (k < |after| && after[k] != close && after[k] !in items ==> r == Err(RuntimeError))
  }

  /** Whitespace at the head of the input does not change how a reader
      ends. */
  lemma OpeningSkip<T>(after: string, close: char, items: set<char>, r: Result<T>, start: T, ending: Error, rest: string)
    requires after != [] && IsSpace(after[0])
    requires Opening(after[1..], close, items, r, start, ending, rest)
    ensures Opening(after, close, items, r, start, ending, rest)
  {
    var k := FirstNonSpace(after[1..]);
    assert FirstNonSpace(after) == k + 1;
    if k < |after[1..]| {
      assert after[k + 1] == after[1..][k] && after[k + 2..] == after[1..][k + 1..];
    }
  }

  /** Opening for a reader whose result carries no value: `close` first is
      success, leaving the input after it. */
  ghost predicate OpeningOutcome(after: string, close: char, items: set<char>, r: Result<()>, ending: Error, rest: string)
  {
    var k := FirstNonSpace(after);
    && (k == |after| ==> r == Err(ending))
    && (k < |after| && after[k] == close ==> r.Ok? && rest == after[k + 1..])
    && (k < |after| && after[k] != close && after[k] !in items ==> r == Err(RuntimeError))
  }

  /** The outcome of a loop carries over to a result without its value when
      success and failure carry over. */
  lemma OpeningForget<T>(after: string, close: char, items: set<char>, loop: Result<T>, start: T, r: Result<()>, ending: Error, rest: string)
    requires Opening(after, close, items, loop, start, ending, rest)
    requires r.Ok? <==> loop.Ok?
    requires r.Err? ==> r.error == loop.error
    ensures OpeningOutcome(after, close, items, r, ending, rest)
  {
    var k := FirstNonSpace(after);
    if loop.Err? {
      assert r == Err(loop.error);
    }
  }

  /** What one pass of a reader's dispatch leaves: carry on with a value, or
      stop with the reader's outcome. */
  datatype Step<T> = Next(value: T) | Stop(outcome: Result<T>)

  /** What a reader reports for an outcome that also carries the input
      left after it: the value alone, or the error. */
  function Reported<T>(t: Result<(T, string)>): Result<T>
  {
    if t.Ok? then Ok(t.value.0) else Err(t.error)
  }

  /** The `n` case of the frame reader as a value: the node record l
      located, read and pushed onto g, with the input after its `;`; a
      runtime_error (leaving nothing) when l is not a record or its fields
      do not read. */
  function NodeItem(l: Located, g: GraphState, stof: string -> Result<real>): (t: (Step<GraphState>, string))
    ensures t.0.Next? <==> l.Found? && NodeFields(l.body, stof).Ok?
    ensures t.0.Next? ==> t.0.value == PushNode(g, NodeOf(NodeFields(l.body, stof).value)) && t.1 == l.rest
    ensures t.0.Stop? ==> t.0 == Stop(Err(RuntimeError)) && t.1 == []
  {
    if l.Found? && NodeFields(l.body, stof).Ok? then (Next(PushNode(g, NodeOf(NodeFields(l.body, stof).value))), l.rest)
    else (Stop(Err(RuntimeError)), [])
  }

  /** The `e` case of the frame reader as a value: the edge record l
      located, read and pushed onto g, with the input after its `;`;
      invalid_graph when push_edge fails, a runtime_error when l is not a
      record or its fields do not read. */
  function EdgeItem(l: Located, g: GraphState): (t: (Step<GraphState>, string))
    ensures !(l.Found? && EdgeFields(l.body).Ok?) ==> t == (Stop(Err(RuntimeError)), [])
    ensures l.Found? && EdgeFields(l.body).Ok? ==>
      var (id, one, two) := EdgeFields(l.body).value;
      var pushed := PushEdge(g, NewEdge(id, one, two, ()));
      && (pushed.Ok? ==> t == (Next(pushed.value), l.rest))
      && (pushed.Err? ==> t == (Stop(Err(InvalidGraph)), []))
  {
    if l.Found? && EdgeFields(l.body).Ok? then
      var (id, one, two) := EdgeFields(l.body).value;
      var pushed := PushEdge(g, NewEdge(id, one, two, ()));
      if pushed.Ok? then (Next(pushed.value), l.rest) else (Stop(Err(InvalidGraph)), [])
    else (Stop(Err(RuntimeError)), [])
  }

  /** One pass of the frame reader over the text s, as a value: the step
      and the input it leaves (nothing once it fails). `]` stops with g;
      `n` and `e` push the record at the head of s; whitespace is skipped;
      anything else, end of input included, is a runtime_error. */
  function ItemStep(s: string, g: GraphState, stof: string -> Result<real>): (t: (Step<GraphState>, string))
    ensures SuffixOf(t.1, s)
    ensures t.0.Next? ==> |t.1| < |s|
    ensures t.0.Stop? && t.0.outcome.Ok? <==> s != [] && s[0] == ']'
    ensures t.0.Stop? && t.0.outcome.Ok? ==> t.0.outcome.value == g && t.1 == s[1..]
    ensures s == [] ==> t.0 == Stop(Err(RuntimeError))
    ensures s != [] && IsSpace(s[0]) ==> t == (Next(g), s[1..])
    ensures s != [] && !IsSpace(s[0]) && s[0] !in {']', 'n', 'e'} ==> t.0 == Stop(Err(RuntimeError))
  {
    if s == [] then (Stop(Err(RuntimeError)), [])
    else if s[0] == ']' then (Stop(Ok(g)), s[1..])
    else if s[0] == 'n' then NodeItem(FindRecord(true, s, 'n'), g, stof)
    else if s[0] == 'e' then EdgeItem(FindRecord(true, s, 'e'), g)
    else if IsSpace(s[0]) then (Next(g), s[1..])
    else (Stop(Err(RuntimeError)), [])
  }

  /** The frame reader from s on, as a value: the passes of ItemStep until
      one stops, giving the graph built onto g and the input after its
      `]`, or the error. */
  function Items(s: string, g: GraphState, stof: string -> Result<real>): (r: Result<(GraphState, string)>)
    ensures r.Ok? ==> ClosedBy(r.value.1, s, ']')
    decreases |s|
  {
    var (step, rest) := ItemStep(s, g, stof);
    match step
    case Next(h) =>
      var r := Items(rest, h, stof);
      if r.Ok? then ClosedTrans(r.value.1, rest, s, ']'); r else r
    case Stop(outcome) =>
      if outcome.Ok? then ClosedAt(rest, s, s, 0, ']'); Ok((outcome.value, rest)) else Err(outcome.error)
  }

  /** Items after one pass of ItemStep. */
  lemma ItemsUnfold(s: string, g: GraphState, stof: string -> Result<real>)
    ensures var (step, rest) := ItemStep(s, g, stof);
      && (step.Next? ==> Items(s, g, stof) == Items(rest, step.value, stof))
      && (step.Stop? && step.outcome.Ok? ==> Items(s, g, stof) == Ok((step.outcome.value, rest)))
      && (step.Stop? && step.outcome.Err? ==> Items(s, g, stof) == Err(step.outcome.error))
  {
  }

  /** How Items ends, read off the first character of s that is not
      whitespace: `]` gives g back with the input after it, end of input
      and any character other than `]`, `n` and `e` a runtime_error. */
  lemma {:induction false} ItemsOpening(s: string, g: GraphState, stof: string -> Result<real>, rest: string)
    requires Items(s, g, stof).Ok? ==> rest == Items(s, g, stof).value.1
    ensures Opening(s, ']', {'n', 'e'}, Reported(Items(s, g, stof)), g, RuntimeError, rest)
    decreases |s|
  {
    if s != [] && IsSpace(s[0]) {
      ItemsOpening(s[1..], g, stof, rest);
      ItemsSkip(s, g, stof);
      OpeningSkip(s, ']', {'n', 'e'}, Reported(Items(s, g, stof)), g, RuntimeError, rest);
    } else {
      ItemsOpeningHead(s, g, stof, rest);
    }
  }

  /** Whitespace at the head of the input is skipped by the frame reader. */
  lemma ItemsSkip(s: string, g: GraphState, stof: string -> Result<real>)
    requires s != [] && IsSpace(s[0])
    ensures Items(s, g, stof) == Items(s[1..], g, stof)
  {
    ItemsUnfold(s, g, stof);
  }

  /** ItemsOpening where the input does not start with whitespace. */
  lemma ItemsOpeningHead(s: string, g: GraphState, stof: string -> Result<real>, rest: string)
    requires s == [] || !IsSpace(s[0])
    requires Items(s, g, stof).Ok? ==> rest == Items(s, g, stof).value.1
    ensures Opening(s, ']', {'n', 'e'}, Reported(Items(s, g, stof)), g, RuntimeError, rest)
  {
    ItemsUnfold(s, g, stof);
    assert FirstNonSpace(s) == 0;
    if s == [] {
      assert Items(s, g, stof) == Err(RuntimeError);
    } else if s[0] == ']' {
      assert Items(s, g, stof) == Ok((g, s[1..]));
    } else if s[0] != 'n' && s[0] != 'e' {
      assert Items(s, g, stof) == Err(RuntimeError);
    }
  }

  /** The frame reader's outcome once a pass stops. */
  lemma ItemsStopped(after: string, before: string, g0: GraphState, g: GraphState, stof: string -> Result<real>, outcome: Result<GraphState>, rest: string)
    requires Items(after, g0, stof) == Items(before, g, stof)
    requires ItemStep(before, g, stof).0 == Stop(outcome)
    requires outcome.Ok? ==> rest == ItemStep(before, g, stof).1
    ensures outcome == Reported(Items(after, g0, stof))
    ensures outcome.Ok? ==> rest == Items(after, g0, stof).value.1
    ensures Opening(after, ']', {'n', 'e'}, outcome, g0, RuntimeError, rest)
  {
    ItemsUnfold(before, g, stof);
    ItemsOpening(after, g0, stof, rest);
  }

  /** The frame reader's outcome is unchanged by a pass that goes on. */
  lemma ItemsAdvanced(after: string, before: string, g0: GraphState, g: GraphState, stof: string -> Result<real>, rest: string)
    requires Items(after, g0, stof) == Items(before, g, stof)
    requires ItemStep(before, g, stof).0.Next? && rest == ItemStep(before, g, stof).1
    ensures Items(after, g0, stof) == Items(rest, ItemStep(before, g, stof).0.value, stof)
  {
    ItemsUnfold(before, g, stof);
  }

  /** A frame that runs out of input before its `]` is a runtime_error. */
  lemma {:induction false} ItemsRunOut(s: string, g: GraphState, stof: string -> Result<real>)
    requires forall i :: 0 <= i < |s| ==> IsSpace(s[i])
    ensures Items(s, g, stof) == Err(RuntimeError)
    decreases |s|
  {
    if s != [] {
      ItemsRunOut(s[1..], g, stof);
    }
  }

  /** One pass of the dynamic-graph reader over s, as a value (leaving
      nothing once it fails): `}` stops with the states read so far,
      leaving s for the caller to consume; `[`
      reads a frame into a fresh graph with Items and appends it;
      whitespace is skipped; end of input is `ending`; anything else is a
      runtime_error. */
  function AnimStep(s: string, states: seq<GraphState>, stof: string -> Result<real>, ending: Error): (t: (Step<seq<GraphState>>, string))
    ensures SuffixOf(t.1, s)
    ensures t.0.Next? ==> |t.1| < |s| && states <= t.0.value
    ensures t.0.Stop? && t.0.outcome.Ok? <==> s != [] && s[0] == '}'
    ensures t.0.Stop? && t.0.outcome.Ok? ==> t.0.outcome.value == states && t.1 == s
    ensures s == [] ==> t.0 == Stop(Err(ending))
    ensures s != [] && IsSpace(s[0]) ==> t == (Next(states), s[1..])
    ensures s != [] && !IsSpace(s[0]) && s[0] !in {'}', '['} ==> t.0 == Stop(Err(RuntimeError))
  {
    if s == [] then (Stop(Err(ending)), [])
    else if s[0] == '}' then (Stop(Ok(states)), s)
    else if s[0] == '[' then
      var frame := Items(s[1..], EmptyFrame(), stof);
      if frame.Ok? then (Next(states + [frame.value.0]), frame.value.1) else (Stop(Err(frame.error)), [])
    else if IsSpace(s[0]) then (Next(states), s[1..])
    else (Stop(Err(RuntimeError)), [])
  }

  /** AnimStep on a frame at the head of s. */
  lemma AnimStepFrame(s: string, states: seq<GraphState>, stof: string -> Result<real>, ending: Error)
    requires s != [] && s[0] == '['
    ensures var f := Items(s[1..], EmptyFrame(), stof);
      && (f.Ok? ==> AnimStep(s, states, stof, ending) == (Next(states + [f.value.0]), f.value.1))
      && (f.Err? ==> AnimStep(s, states, stof, ending) == (Stop(Err(f.error)), []))
  {
  }

  /** The dynamic-graph reader's loop from s on, as a value: the states it
      collects after `states`, with the input left at the `}`, or the error
      it stops with. */
  function Frames(s: string, states: seq<GraphState>, stof: string -> Result<real>, ending: Error): (r: Result<(seq<GraphState>, string)>)
    ensures r.Ok? ==> states <= r.value.0
    ensures r.Ok? ==> SuffixOf(r.value.1, s) && r.value.1 != [] && r.value.1[0] == '}'
    decreases |s|
  {
    var (step, rest) := AnimStep(s, states, stof, ending);
    match step
    case Next(more) =>
      var r := Frames(rest, more, stof, ending);
      if r.Ok? then SuffixTrans(r.value.1, rest, s); r else r
    case Stop(outcome) =>
      if outcome.Ok? then Ok((outcome.value, rest)) else Err(outcome.error)
  }

  /** Frames after one pass of AnimStep. */
  lemma FramesUnfold(s: string, states: seq<GraphState>, stof: string -> Result<real>, ending: Error)
    ensures var (step, rest) := AnimStep(s, states, stof, ending);
      && (step.Next? ==> Frames(s, states, stof, ending) == Frames(rest, step.value, stof, ending))
      && (step.Stop? && step.outcome.Ok? ==> Frames(s, states, stof, ending) == Ok((step.outcome.value, rest)))
      && (step.Stop? && step.outcome.Err? ==> Frames(s, states, stof, ending) == Err(step.outcome.error))
  {
  }

  /** How the dynamic-graph loop ends, read off the first character of s
      that is not whitespace: `}` gives no states, leaving the `}`; end of
      input is `ending`; any character other than `}` and `[` a
      runtime_error. */
  lemma {:induction false} FramesOpening(s: string, stof: string -> Result<real>, ending: Error, rest: string)
    requires Frames(s, [], stof, ending).Ok? ==> rest == Frames(s, [], stof, ending).value.1[1..]
    ensures Opening(s, '}', {'['}, Reported(Frames(s, [], stof, ending)), [], ending, rest)
    decreases |s|
  {
    if s != [] && IsSpace(s[0]) {
      FramesOpening(s[1..], stof, ending, rest);
      FramesSkip(s, [], stof, ending);
      OpeningSkip(s, '}', {'['}, Reported(Frames(s, [], stof, ending)), [], ending, rest);
    } else {
      FramesOpeningHead(s, stof, ending, rest);
    }
  }

  /** Whitespace at the head of the input is skipped by the loop. */
  lemma FramesSkip(s: string, states: seq<GraphState>, stof: string -> Result<real>, ending: Error)
    requires s != [] && IsSpace(s[0])
    ensures Frames(s, states, stof, ending) == Frames(s[1..], states, stof, ending)
  {
    FramesUnfold(s, states, stof, ending);
  }

  /** FramesOpening where the input does not start with whitespace. */
  lemma FramesOpeningHead(s: string, stof: string -> Result<real>, ending: Error, rest: string)
    requires s == [] || !IsSpace(s[0])
    requires Frames(s, [], stof, ending).Ok? ==> rest == Frames(s, [], stof, ending).value.1[1..]
    ensures Opening(s, '}', {'['}, Reported(Frames(s, [], stof, ending)), [], ending, rest)
  {
    FramesUnfold(s, [], stof, ending);
    assert FirstNonSpace(s) == 0;
    if s == [] {
      assert Frames(s, [], stof, ending) == Err(ending);
    } else if s[0] == '}' {
      assert Frames(s, [], stof, ending) == Ok(([], s));
    } else if s[0] != '[' {
      assert Frames(s, [], stof, ending) == Err(RuntimeError);
    }
  }

  /** The dynamic-graph loop's outcome once a pass stops. */
  lemma FramesStopped(after: string, before: string, states: seq<GraphState>, stof: string -> Result<real>, ending: Error, outcome: Result<seq<GraphState>>, rest: string)
    requires Frames(after, [], stof, ending) == Frames(before, states, stof, ending)
    requires AnimStep(before, states, stof, ending).0 == Stop(outcome)
    requires outcome.Ok? ==> rest == before
    ensures outcome == Reported(Frames(after, [], stof, ending))
    ensures outcome.Ok? ==> rest == Frames(after, [], stof, ending).value.1 && rest != [] && rest[0] == '}'
    ensures Opening(after, '}', {'['}, outcome, [], ending, if outcome.Ok? then rest[1..] else rest)
  {
    FramesUnfold(before, states, stof, ending);
    FramesOpening(after, stof, ending, if outcome.Ok? then rest[1..] else rest);
  }

  /** The dynamic-graph loop's outcome is unchanged by a pass that goes on. */
  lemma FramesAdvanced(after: string, before: string, states: seq<GraphState>, stof: string -> Result<real>, ending: Error, rest: string)
    requires Frames(after, [], stof, ending) == Frames(before, states, stof, ending)
    requires AnimStep(before, states, stof, ending).0.Next? && rest == AnimStep(before, states, stof, ending).1
    ensures Frames(after, [], stof, ending) == Frames(rest, AnimStep(before, states, stof, ending).0.value, stof, ending)
  {
    FramesUnfold(before, states, stof, ending);
  }

  /** Input that runs out at the level of the dynamic graph, after any
      number of frames, ends the loop with `ending`. */
  lemma {:induction false} FramesRunOut(s: string, states: seq<GraphState>, stof: string -> Result<real>, ending: Error)
    requires forall i :: 0 <= i < |s| ==> IsSpace(s[i])
    ensures Frames(s, states, stof, ending) == Err(ending)
    decreases |s|
  {
    if s != [] {
      FramesRunOut(s[1..], states, stof, ending);
    }
  }

  /** A complete frame followed by nothing but whitespace ends the loop
      with `ending`. */
  lemma FrameThenRunOut(s: string, states: seq<GraphState>, stof: string -> Result<real>, ending: Error)
    requires s != [] && s[0] == '[' && Items(s[1..], EmptyFrame(), stof).Ok?
    requires var rest := Items(s[1..], EmptyFrame(), stof).value.1; forall i :: 0 <= i < |rest| ==> IsSpace(rest[i])
    ensures Frames(s, states, stof, ending) == Err(ending)
  {
    var frame := Items(s[1..], EmptyFrame(), stof).value;
    FramesRunOut(frame.1, states + [frame.0], stof, ending);
  }

  /** The loop's outcome depends on `ending` only when the input runs out:
      two endings give the same states and the same errors otherwise. */
  lemma {:induction false} FramesEndingOnly(s: string, states: seq<GraphState>, stof: string -> Result<real>, e1: Error, e2: Error)
    ensures Frames(s, states, stof, e1).Ok? <==> Frames(s, states, stof, e2).Ok?
    ensures Frames(s, states, stof, e1).Ok? ==> Frames(s, states, stof, e1) == Frames(s, states, stof, e2)
    ensures Frames(s, states, stof, e1).Err? ==>
      || Frames(s, states, stof, e1).error == Frames(s, states, stof, e2).error
      || (Frames(s, states, stof, e1).error == e1 && Frames(s, states, stof, e2).error == e2)
    decreases |s|
  {
    if s == [] {
      FramesUnfold(s, states, stof, e1);
      FramesUnfold(s, states, stof, e2);
    } else {
      var (step, rest) := AnimStep(s, states, stof, e1);
      FramesEndingStep(s, states, stof, e1, e2);
      if step.Next? {
        FramesEndingOnly(rest, step.value, stof, e1, e2);
      }
    }
  }

  /** Away from the end of input, a pass of the loop does not depend on
      the ending: it stops with the same outcome or goes on to the same
      place. */
  lemma FramesEndingStep(s: string, states: seq<GraphState>, stof: string -> Result<real>, e1: Error, e2: Error)
    requires s != []
    ensures var (step, rest) := AnimStep(s, states, stof, e1);
      && (step.Stop? ==> Frames(s, states, stof, e1) == Frames(s, states, stof, e2))
      && (step.Next? ==>
            && Frames(s, states, stof, e1) == Frames(rest, step.value, stof, e1)
            && Frames(s, states, stof, e2) == Frames(rest, step.value, stof, e2))
  {
    assert AnimStep(s, states, stof, e1) == AnimStep(s, states, stof, e2);
    FramesUnfold(s, states, stof, e1);
    FramesUnfold(s, states, stof, e2);
  }

  /** One pass of the frame reader's switch on the peeked character: `]`
      is consumed and stops with g; `n` and `e` read a record and push it;
      any other character is consumed and must be whitespace. */
  method GraphStep(input: Input, g: GraphState, stof: string -> Result<real>) returns (s: Step<GraphState>)
    requires g.Valid() && input.good
    modifies input
    ensures s.Next? ==> s.value.Valid() && input.good && |input.rest| < |old(input.rest)|
    ensures s.Stop? && s.outcome.Err? ==> s.outcome.error == RuntimeError || s.outcome.error == InvalidGraph
    ensures s.Stop? && s.outcome.Ok? ==>
      s.outcome.value == g && old(input.rest) != [] && old(input.rest)[0] == ']' && input.good
    ensures SuffixOf(input.rest, old(input.rest))
    ensures s == ItemStep(old(input.rest), g, stof).0
    ensures s.Next? || s.outcome.Ok? ==> input.rest == ItemStep(old(input.rest), g, stof).1
  {
    var c := input.Peek();
    if c == Char(']') {
      var closing := input.Get();
      return Stop(Ok(g));
    } else if c == Char('n') {
      var r := NodeCase(input, g, stof);
      return if r.Ok? then Next(r.value) else Stop(r);
    } else if c == Char('e') {
      var r := EdgeCase(input, g);
      return if r.Ok? then Next(r.value) else Stop(r);
    } else {
      var d := input.Get();
      var v := Validate(d);
      return if v.Ok? then Next(g) else Stop(Err(v.error));
    }
  }

  /** The loop of the frame reader, from just after the `[`: dispatch on
      the peeked character until `]`. */
  method ReadItems(input: Input, g0: GraphState, stof: string -> Result<real>) returns (r: Result<GraphState>)
    requires g0.Valid() && input.good
    modifies input
    ensures r.Ok? ==> r.value.Valid() && input.good && ClosedBy(input.rest, old(input.rest), ']')
    ensures r.Err? ==> r.error == RuntimeError || r.error == InvalidGraph
    ensures Opening(old(input.rest), ']', {'n', 'e'}, r, g0, RuntimeError, input.rest)
    ensures r == Reported(Items(old(input.rest), g0, stof))
    ensures r.Ok? ==> input.rest == Items(old(input.rest), g0, stof).value.1
    ensures SuffixOf(input.rest, old(input.rest))
  {
    ghost var after := input.rest;
    var g := g0;
    while input.good
      invariant input.good && g.Valid() && SuffixOf(input.rest, after)
      invariant Items(after, g0, stof) == Items(input.rest, g, stof)
      decreases input.Measure()
    {
      ghost var before := input.rest;
      var step := GraphStep(input, g, stof);
      SuffixTrans(input.rest, before, after);
      if step.Stop? {
        ItemsStopped(after, before, g0, g, stof, step.outcome, input.rest);
        return step.outcome;
      }
      ItemsAdvanced(after, before, g0, g, stof, input.rest);
      g := step.value;
    }
    return Ok(g);
  }

  /** operator>> for a graph: nothing without a `[`; otherwise the items up
      to the `]`. `after` is the input that followed the `[`. */
  method ReadGraph(input: Input, g0: GraphState, stof: string -> Result<real>) returns (r: Result<GraphState>, ghost after: string)
    requires g0.Valid()
    modifies input
    ensures r.Ok? ==> r.value.Valid()
    ensures r.Err? ==> r.error == RuntimeError || r.error == InvalidGraph
    ensures !(old(input.good) && '[' in old(input.rest)) ==> r == Ok(g0) && !input.good
    ensures old(input.good) && '[' in old(input.rest) ==>
      && after == old(input.rest)[IndexOf(old(input.rest), '[') + 1..]
      && Opening(after, ']', {'n', 'e'}, r, g0, RuntimeError, input.rest)
      && r == Reported(Items(after, g0, stof))
      && (r.Ok? ==> input.rest == Items(after, g0, stof).value.1)
      && (r.Ok? ==> input.good && ClosedBy(input.rest, old(input.rest), ']'))
    ensures SuffixOf(input.rest, old(input.rest))
    ensures old(input.good) ==> input.Measure() < old(input.Measure())
  {
    ghost var s0 := input.rest;
    var found := SkipUntil(input, '[');
    after := input.rest;
    if !found {
      return Ok(g0), after;
    }
    r := ReadItems(input, g0, stof);
    SuffixTrans(input.rest, after, s0);
    if r.Ok? {
      ClosedTrans(input.rest, after, s0, ']');
    }
  }

  /** Closed by `ch` within a suffix is closed by `ch` within the whole. */
  lemma ClosedTrans(a: string, b: string, c: string, ch: char)
    requires ClosedBy(a, b, ch) && SuffixOf(b, c)
    ensures ClosedBy(a, c, ch)
  {
    assert c[|c| - |a| - 1] == b[|b| - |a| - 1];
  }

  /** Reading up to and including the `ch` at `pos` of a suffix of s0 leaves
      a rest closed by `ch`. */
  lemma ClosedAt(rest: string, after: string, s0: string, pos: nat, ch: char)
    requires SuffixOf(after, s0) && pos < |after| && after[pos] == ch && rest == after[pos + 1..]
    ensures ClosedBy(rest, s0, ch)
  {
    assert s0[|s0| - |after| + pos] == after[pos];
  }

  // ---------------------------------------------------- dynamic graph reader

  /** The `[` case of the dynamic-graph reader: a frame read into a fresh
      graph with the frame reader and appended to states. */
  method FrameCase(input: Input, states: seq<GraphState>, stof: string -> Result<real>) returns (s: Step<seq<GraphState>>)
    requires input.good && input.rest != [] && input.rest[0] == '['
    requires forall t :: 0 <= t < |states| ==> states[t].Valid()
    modifies input
    ensures s.Next? ==> input.good && |input.rest| < |old(input.rest)|
    ensures s.Next? ==> forall t :: 0 <= t < |s.value| ==> s.value[t].Valid()
    ensures s.Stop? ==> s.outcome.Err? && (s.outcome.error == RuntimeError || s.outcome.error == InvalidGraph)
    ensures SuffixOf(input.rest, old(input.rest))
    ensures var f := Items(old(input.rest)[1..], EmptyFrame(), stof);
      && (f.Ok? ==> s == Next(states + [f.value.0]) && input.rest == f.value.1)
      && (f.Err? ==> s == Stop(Err(f.error)))
  {
    ghost var s0 := input.rest;
    IndexOfAt(s0, '[', 0);
    var state, after := ReadGraph(input, EmptyFrame(), stof);
    assert after == s0[1..];
    assert state == Reported(Items(s0[1..], EmptyFrame(), stof));
    if state.Err? {
      return Stop(Err(state.error));
    }
    AppendValid(states, state.value);
    return Next(states + [state.value]);
  }

  /** A valid frame appended to valid frames leaves them all valid. */
  lemma AppendValid(states: seq<GraphState>, g: GraphState)
    requires forall t :: 0 <= t < |states| ==> states[t].Valid()
    requires g.Valid()
    ensures forall t :: 0 <= t < |states + [g]| ==> (states + [g])[t].Valid()
  {
  }

  /** One pass of the dynamic-graph reader's switch on the peeked character:
      `}` stops with the states read so far (the caller builds and consumes
      it); `[` reads a frame into a fresh graph and appends it; any other
      character is consumed and must be whitespace, end of input included. */
  method AnimationStep(input: Input, states: seq<GraphState>, stof: string -> Result<real>) returns (s: Step<seq<GraphState>>)
    requires input.good
    requires forall t :: 0 <= t < |states| ==> states[t].Valid()
    modifies input
    ensures s.Next? ==> input.good && |input.rest| < |old(input.rest)|
    ensures s.Next? ==> forall t :: 0 <= t < |s.value| ==> s.value[t].Valid()
    ensures s.Stop? && s.outcome.Err? ==> s.outcome.error == RuntimeError || s.outcome.error == InvalidGraph
    ensures s.Stop? && s.outcome.Ok? ==>
      s.outcome.value == states && input.good && input.rest == old(input.rest) && input.rest != [] && input.rest[0] == '}'
    ensures SuffixOf(input.rest, old(input.rest))
    ensures s == AnimStep(old(input.rest), states, stof, RuntimeError).0
    ensures s.Next? ==> input.rest == AnimStep(old(input.rest), states, stof, RuntimeError).1
  {
    var c := input.Peek();
    if c == Char('}') {
      return Stop(Ok(states));
    } else if c == Char('[') {
      AnimStepFrame(old(input.rest), states, stof, RuntimeError);
      s := FrameCase(input, states, stof);
    } else {
      var d := input.Get();
      var v := Validate(d);
      return if v.Ok? then Next(states) else Stop(Err(v.error));
    }
  }

  /** The loop of the dynamic-graph reader as written, from just after the
      `{`: frames are read until `}` is peeked (left for the caller to
      build and consume). End of input is peeked as EOF and handed to
      validate like any other character, so it is a runtime_error; no pass
      leaves the stream other than good, so the loop never ends by its
      condition. */
  method ReadFramesAsWritten(input: Input, stof: string -> Result<real>) returns (r: Result<seq<GraphState>>)
    requires input.good
    modifies input
    ensures r.Ok? ==> input.good && input.rest != [] && input.rest[0] == '}'
    ensures r.Ok? ==> forall t :: 0 <= t < |r.value| ==> r.value[t].Valid()
    ensures r.Err? ==> r.error == RuntimeError || r.error == InvalidGraph
    ensures var l := if r.Ok? then input.rest[1..] else input.rest;
      Opening(old(input.rest), '}', {'['}, r, [], RuntimeError, l)
    ensures r == Reported(Frames(old(input.rest), [], stof, RuntimeError))
    ensures r.Ok? ==> input.rest == Frames(old(input.rest), [], stof, RuntimeError).value.1
    ensures SuffixOf(input.rest, old(input.rest))
  {
    ghost var after := input.rest;
    var states: seq<GraphState> := [];
    while input.good
      invariant input.good && SuffixOf(input.rest, after)
      invariant forall t :: 0 <= t < |states| ==> states[t].Valid()
      invariant Frames(after, [], stof, RuntimeError) == Frames(input.rest, states, stof, RuntimeError)
      decreases input.Measure()
    {
      ghost var before := input.rest;
      var step := AnimationStep(input, states, stof);
      SuffixTrans(input.rest, before, after);
      if step.Stop? {
        FramesStopped(after, before, states, stof, RuntimeError, step.outcome, input.rest);
        return step.outcome;
      }
      FramesAdvanced(after, before, states, stof, RuntimeError, input.rest);
      states := step.value;
    }
    return Err(OutOfRange);
  }

  /** One pass of the corrected dynamic-graph loop: end of input ends the
      loop with out_of_range; anything else is a pass of AnimationStep. */
  method FramesStep(input: Input, states: seq<GraphState>, stof: string -> Result<real>) returns (s: Step<seq<GraphState>>)
    requires input.good
    requires forall t :: 0 <= t < |states| ==> states[t].Valid()
    modifies input
    ensures s.Next? ==> input.good && |input.rest| < |old(input.rest)|
    ensures s.Next? ==> forall t :: 0 <= t < |s.value| ==> s.value[t].Valid()
    ensures s.Stop? && s.outcome.Err? ==> s.outcome.error == RuntimeError || s.outcome.error == InvalidGraph || s.outcome.error == OutOfRange
    ensures s.Stop? && s.outcome == Err(OutOfRange) ==> input.rest == [] && !input.good
    ensures s.Stop? && s.outcome.Ok? ==>
      s.outcome.value == states && input.good && input.rest == old(input.rest) && input.rest != [] && input.rest[0] == '}'
    ensures SuffixOf(input.rest, old(input.rest))
    ensures s == AnimStep(old(input.rest), states, stof, OutOfRange).0
    ensures s.Next? ==> input.rest == AnimStep(old(input.rest), states, stof, OutOfRange).1
  {
    var c := input.Peek();
    if c == Eof {
      return Stop(Err(OutOfRange));
    }
    s := AnimationStep(input, states, stof);
  }

  /** The loop of the dynamic-graph reader with end of input leaving the
      loop, so that input ending before `}` raises out_of_range, as the
      message of the throw after the loop says it should. */
  method ReadFrames(input: Input, stof: string -> Result<real>) returns (r: Result<seq<GraphState>>)
    requires input.good
    modifies input
    ensures r.Ok? ==> input.good && input.rest != [] && input.rest[0] == '}'
    ensures r.Ok? ==> forall t :: 0 <= t < |r.value| ==> r.value[t].Valid()
    ensures r.Err? ==> r.error == RuntimeError || r.error == InvalidGraph || r.error == OutOfRange
    ensures r == Err(OutOfRange) ==> input.rest == [] && !input.good
    ensures var l := if r.Ok? then input.rest[1..] else input.rest;
      Opening(old(input.rest), '}', {'['}, r, [], OutOfRange, l)
    ensures r == Reported(Frames(old(input.rest), [], stof, OutOfRange))
    ensures r.Ok? ==> input.rest == Frames(old(input.rest), [], stof, OutOfRange).value.1
    ensures SuffixOf(input.rest, old(input.rest))
  {
    ghost var after := input.rest;
    var states: seq<GraphState> := [];
    while input.good
      invariant input.good && SuffixOf(input.rest, after)
      invariant forall t :: 0 <= t < |states| ==> states[t].Valid()
      invariant Frames(after, [], stof, OutOfRange) == Frames(input.rest, states, stof, OutOfRange)
      decreases input.Measure()
    {
      ghost var before := input.rest;
      var step := FramesStep(input, states, stof);
      SuffixTrans(input.rest, before, after);
      if step.Stop? {
        FramesStopped(after, before, states, stof, OutOfRange, step.outcome, input.rest);
        return step.outcome;
      }
      FramesAdvanced(after, before, states, stof, OutOfRange, input.rest);
      states := step.value;
    }
    return Err(OutOfRange);
  }

  /** What the dynamic-graph reader does with the outcome of its loop: on
      `}`, build the dynamic graph from the frames read, then consume the
      `}`. */
  method Finish(input: Input, dg: DynamicGraph, frames: Result<seq<GraphState>>) returns (r: Result<()>)
    requires frames.Ok? ==> input.good && input.rest != [] && input.rest[0] == '}'
    requires frames.Ok? ==> forall t :: 0 <= t < |frames.value| ==> frames.value[t].Valid()
    modifies input, dg
    ensures r.Ok? <==> frames.Ok?
    ensures r.Err? ==> r.error == frames.error && unchanged(dg) && unchanged(input)
    ensures r.Ok? ==> dg.log == [] && dg.Valid() && dg.states == Flagged(frames.value)
    ensures r.Ok? ==> dg.lastNodeId == RaisedNodeCounter(old(dg.lastNodeId), dg.states, 0) && dg.lastEdgeId == RaisedEdgeCounter(old(dg.lastEdgeId), dg.states, 0)
    ensures r.Ok? ==> input.good && input.rest == old(input.rest)[1..]
  {
    if frames.Err? {
      return Err(frames.error);
    }
    dg.BuildFrom(frames.value);
    var closing := input.Get();
    r := Ok(());
  }

  /** Finish applied to the outcome of a frame loop that started on s0,
      stated in terms of Frames of s0. */
  method Conclude(input: Input, dg: DynamicGraph, read: Result<seq<GraphState>>,
                  ghost s0: string, ghost stof: string -> Result<real>, ghost ending: Error)
      returns (r: Result<()>, ghost frames: seq<GraphState>)
    requires read == Reported(Frames(s0, [], stof, ending))
    requires read.Ok? ==> input.good && input.rest != [] && input.rest[0] == '}'
    requires read.Ok? ==> forall t :: 0 <= t < |read.value| ==> read.value[t].Valid()
    requires Opening(s0, '}', {'['}, read, [], ending, if read.Ok? then input.rest[1..] else input.rest)
    requires SuffixOf(input.rest, s0)
    modifies input, dg
    ensures r.Err? ==> read.Err? && r.error == read.error && unchanged(dg) && unchanged(input)
    ensures OpeningOutcome(s0, '}', {'['}, r, ending, input.rest)
    ensures r.Ok? <==> Frames(s0, [], stof, ending).Ok?
    ensures r.Err? ==> r.error == Frames(s0, [], stof, ending).error
    ensures r.Ok? ==> frames == Frames(s0, [], stof, ending).value.0
    ensures r.Ok? ==> input.good && ClosedBy(input.rest, s0, '}')
    ensures r.Ok? ==> dg.log == [] && dg.Valid() && dg.states == Flagged(frames)
    ensures r.Ok? ==> dg.lastNodeId == RaisedNodeCounter(old(dg.lastNodeId), dg.states, 0) && dg.lastEdgeId == RaisedEdgeCounter(old(dg.lastEdgeId), dg.states, 0)
    ensures SuffixOf(input.rest, s0)
  {
    ghost var mid := input.rest;
    r := Finish(input, dg, read);
    assert r.Err? ==> r.error == read.error;
    frames := [];
    if read.Ok? {
      frames := read.value;
      ClosedAt(input.rest, mid, mid, 0, '}');
      ClosedTrans(input.rest, mid, s0, '}');
      SuffixTrans(input.rest, mid, s0);
    }
    OpeningForget(s0, '}', {'['}, read, [], r, ending, input.rest);
    assert r.Ok? ==> frames == Frames(s0, [], stof, ending).value.0 && dg.states == Flagged(frames);
  }

  /** The dynamic-graph reader from just after its `{`, as written: the loop, then
      the build on `}`. */
  method ReadBodyAsWritten(input: Input, dg: DynamicGraph, stof: string -> Result<real>) returns (r: Result<()>, ghost frames: seq<GraphState>)
    requires input.good
    modifies input, dg
    ensures r.Err? ==> unchanged(dg)
    ensures r.Err? ==> r.error == RuntimeError || r.error == InvalidGraph
    ensures OpeningOutcome(old(input.rest), '}', {'['}, r, RuntimeError, input.rest)
    ensures r.Ok? <==> Frames(old(input.rest), [], stof, RuntimeError).Ok?
    ensures r.Err? ==> r.error == Frames(old(input.rest), [], stof, RuntimeError).error
    ensures r.Ok? ==> frames == Frames(old(input.rest), [], stof, RuntimeError).value.0
    ensures r.Ok? ==> input.good && ClosedBy(input.rest, old(input.rest), '}')
    ensures r.Ok? ==> dg.log == [] && dg.Valid() && dg.states == Flagged(frames)
    ensures r.Ok? ==> dg.lastNodeId == RaisedNodeCounter(old(dg.lastNodeId), dg.states, 0) && dg.lastEdgeId == RaisedEdgeCounter(old(dg.lastEdgeId), dg.states, 0)
    ensures SuffixOf(input.rest, old(input.rest))
  {
    var read := ReadFramesAsWritten(input, stof);
    r, frames := Conclude(input, dg, read, old(input.rest), stof, RuntimeError);
  }

  /** operator>> for a dynamic graph, as written: nothing without a `{`;
      otherwise the frames up to `}`, built into dg. `after` is the input
      that followed the `{`. Input ending before `}` is a runtime_error, and
      no outcome is out_of_range. */
  method ReadAnimationAsWritten(input: Input, dg: DynamicGraph, stof: string -> Result<real>)
    returns (r: Result<()>, ghost frames: seq<GraphState>, ghost after: string)
    modifies input, dg
    ensures !(old(input.good) && '{' in old(input.rest)) ==> r == Ok(()) && !input.good && unchanged(dg)
    ensures r.Err? ==> unchanged(dg)
    ensures r.Err? ==> r.error == RuntimeError || r.error == InvalidGraph
    ensures old(input.good) && '{' in old(input.rest) ==>
      && after == old(input.rest)[IndexOf(old(input.rest), '{') + 1..]
      && OpeningOutcome(after, '}', {'['}, r, RuntimeError, input.rest)
      && (r.Ok? <==> Frames(after, [], stof, RuntimeError).Ok?)
      && (r.Err? ==> r.error == Frames(after, [], stof, RuntimeError).error)
      && (r.Ok? ==> frames == Frames(after, [], stof, RuntimeError).value.0)
      && (r.Ok? ==> input.good && ClosedBy(input.rest, old(input.rest), '}'))
      && (r.Ok? ==> dg.log == [] && dg.Valid() && dg.states == Flagged(Frames(after, [], stof, RuntimeError).value.0))
      && (r.Ok? ==> dg.lastNodeId == RaisedNodeCounter(old(dg.lastNodeId), dg.states, 0) && dg.lastEdgeId == RaisedEdgeCounter(old(dg.lastEdgeId), dg.states, 0))
    ensures SuffixOf(input.rest, old(input.rest))
  {
    ghost var s0 := input.rest;
    var found := SkipUntil(input, '{');
    after := input.rest;
    frames := [];
    if !found {
      return Ok(()), frames, after;
    }
    assert after == s0[IndexOf(s0, '{') + 1..];
    r, frames := ReadBodyAsWritten(input, dg, stof);
    if r.Ok? {
      ClosedTrans(input.rest, after, s0, '}');
    }
    SuffixTrans(input.rest, after, s0);
  }

  /** The dynamic-graph reader from just after its `{`: the loop, then
      the build on `}`. */
  method ReadBody(input: Input, dg: DynamicGraph, stof: string -> Result<real>) returns (r: Result<()>, ghost frames: seq<GraphState>)
    requires input.good
    modifies input, dg
    ensures r.Err? ==> unchanged(dg)
    ensures r == Err(OutOfRange) ==> !input.good && input.rest == []
    ensures OpeningOutcome(old(input.rest), '}', {'['}, r, OutOfRange, input.rest)
    ensures r.Ok? <==> Frames(old(input.rest), [], stof, OutOfRange).Ok?
    ensures r.Err? ==> r.error == Frames(old(input.rest), [], stof, OutOfRange).error
    ensures r.Ok? ==> frames == Frames(old(input.rest), [], stof, OutOfRange).value.0
    ensures r.Ok? ==> input.good && ClosedBy(input.rest, old(input.rest), '}')
    ensures r.Ok? ==> dg.log == [] && dg.Valid() && dg.states == Flagged(frames)
    ensures r.Ok? ==> dg.lastNodeId == RaisedNodeCounter(old(dg.lastNodeId), dg.states, 0) && dg.lastEdgeId == RaisedEdgeCounter(old(dg.lastEdgeId), dg.states, 0)
    ensures SuffixOf(input.rest, old(input.rest))
  {
    var read := ReadFrames(input, stof);
    r, frames := Conclude(input, dg, read, old(input.rest), stof, OutOfRange);
  }

  /** operator>> for a dynamic graph with input ending before `}` raising
      out_of_range. */
  method ReadAnimation(input: Input, dg: DynamicGraph, stof: string -> Result<real>)
    returns (r: Result<()>, ghost frames: seq<GraphState>, ghost after: string)
    modifies input, dg
    ensures !(old(input.good) && '{' in old(input.rest)) ==> r == Ok(()) && !input.good && unchanged(dg)
    ensures r.Err? ==> unchanged(dg)
    ensures r == Err(OutOfRange) ==> !input.good && input.rest == []
    ensures old(input.good) && '{' in old(input.rest) ==>
      && after == old(input.rest)[IndexOf(old(input.rest), '{') + 1..]
      && OpeningOutcome(after, '}', {'['}, r, OutOfRange, input.rest)
      && (r.Ok? <==> Frames(after, [], stof, OutOfRange).Ok?)
      && (r.Err? ==> r.error == Frames(after, [], stof, OutOfRange).error)
      && (r.Ok? ==> frames == Frames(after, [], stof, OutOfRange).value.0)
      && (r.Ok? ==> input.good && ClosedBy(input.rest, old(input.rest), '}'))
      && (r.Ok? ==> dg.log == [] && dg.Valid() && dg.states == Flagged(Frames(after, [], stof, OutOfRange).value.0))
      && (r.Ok? ==> dg.lastNodeId == RaisedNodeCounter(old(dg.lastNodeId), dg.states, 0) && dg.lastEdgeId == RaisedEdgeCounter(old(dg.lastEdgeId), dg.states, 0))
    ensures SuffixOf(input.rest, old(input.rest))
  {
    ghost var s0 := input.rest;
    var found := SkipUntil(input, '{');
    after := input.rest;
    frames := [];
    if !found {
      return Ok(()), frames, after;
    }
    assert after == s0[IndexOf(s0, '{') + 1..];
    r, frames := ReadBody(input, dg, stof);
    if r.Ok? {
      ClosedTrans(input.rest, after, s0, '}');
    }
    SuffixTrans(input.rest, after, s0);
  }
}
