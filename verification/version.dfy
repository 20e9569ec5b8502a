/** Release-version comparison of the updater (`Updater::is_newer_version`):
    a version string is split on '.', every piece that parses as a `u32`
    is kept (the others are dropped, so later pieces move left), missing
    positions count as 0, and the first three positions are compared
    lexicographically. */
module Version {
  import opened Wrappers
  import opened RustInt

  // ---------------------------------------------------------------------
  // Splitting on a separator character (Rust's `str::split(char)`)
  // ---------------------------------------------------------------------

  /** The pieces between occurrences of `sep`; the empty string yields one
      empty piece and adjacent separators yield empty pieces, as in Rust. */
  function Split(s: string, sep: char): (pieces: seq<string>)
    ensures |pieces| >= 1
    ensures forall i :: 0 <= i < |pieces| ==> sep !in pieces[i]
  {
    if |s| == 0 then [""]
    else
      var rest := Split(s[1..], sep);
      if s[0] == sep then [""] + rest
      else [[s[0]] + rest[0]] + rest[1..]
  }

  /** The pieces glued back together with `sep` between neighbours. */
  function Join(pieces: seq<string>, sep: char): (s: string)
    requires |pieces| >= 1
  {
    if |pieces| == 1 then pieces[0] else pieces[0] + [sep] + Join(pieces[1..], sep)
  }

  /** Joining the pieces of a split gives back the original string. */
  lemma {:induction false} JoinSplit(s: string, sep: char)
    ensures Join(Split(s, sep), sep) == s
  {
    if |s| > 0 {
      var rest := Split(s[1..], sep);
      JoinSplit(s[1..], sep);
      if s[0] == sep {
        assert Split(s, sep) == [""] + rest;
        assert ([""] + rest)[1..] == rest;
      } else {
        var ps := Split(s, sep);
        assert ps == [[s[0]] + rest[0]] + rest[1..];
        if |rest| > 1 {
          assert ps[1..] == rest[1..];
        }
      }
    }
  }

  /** Splitting a join of separator-free pieces gives back the pieces. */
  lemma {:induction false} SplitJoin(pieces: seq<string>, sep: char)
    requires |pieces| >= 1
    requires forall i :: 0 <= i < |pieces| ==> sep !in pieces[i]
    ensures Split(Join(pieces, sep), sep) == pieces
  {
    if |pieces| == 1 {
      SplitNoSep(pieces[0], sep);
    } else {
      SplitJoin(pieces[1..], sep);
      SplitPrefix(pieces[0], Join(pieces[1..], sep), sep);
      assert pieces == [pieces[0]] + pieces[1..];
    }
  }

  /** A string without the separator is a single piece. */
  lemma {:induction false} SplitNoSep(s: string, sep: char)
    requires sep !in s
    ensures Split(s, sep) == [s]
  {
    if |s| > 0 {
      assert sep !in s[1..] by {
        forall i | 0 <= i < |s[1..]| ensures s[1..][i] != sep {
          assert s[1..][i] == s[i + 1];
        }
      }
      SplitNoSep(s[1..], sep);
      assert [s[0]] + s[1..] == s;
    }
  }

  /** A separator-free head followed by the separator splits off as one piece. */
  lemma {:induction false} SplitPrefix(head: string, tail: string, sep: char)
    requires sep !in head
    ensures Split(head + [sep] + tail, sep) == [head] + Split(tail, sep)
  {
    var s := head + [sep] + tail;
    if |head| == 0 {
      assert s == [sep] + tail;
      assert s[1..] == tail;
    } else {
      assert s[1..] == head[1..] + [sep] + tail;
      assert sep !in head[1..] by {
        forall i | 0 <= i < |head[1..]| ensures head[1..][i] != sep {
          assert head[1..][i] == head[i + 1];
        }
      }
      SplitPrefix(head[1..], tail, sep);
      assert [head[0]] + head[1..] == head;
    }
  }

  /** Join distributes over concatenation of piece lists. */
  lemma {:induction false} JoinAppend(p: seq<string>, q: seq<string>, sep: char)
    requires |p| >= 1 && |q| >= 1
    ensures Join(p + q, sep) == Join(p, sep) + [sep] + Join(q, sep)
  {
    if |p| == 1 {
      assert (p + q)[1..] == q;
    } else {
      assert (p + q)[1..] == p[1..] + q;
      JoinAppend(p[1..], q, sep);
    }
  }

  /** The split of `a + sep + b` is the split of `a` followed by that of `b`. */
  lemma SplitAppend(a: string, b: string, sep: char)
    ensures Split(a + [sep] + b, sep) == Split(a, sep) + Split(b, sep)
  {
    var p, q := Split(a, sep), Split(b, sep);
    JoinAppend(p, q, sep);
    JoinSplit(a, sep);
    JoinSplit(b, sep);
    assert forall i :: 0 <= i < |p + q| ==> sep !in (p + q)[i] by {
      forall i | 0 <= i < |p + q| ensures sep !in (p + q)[i] {
        if i < |p| { assert (p + q)[i] == p[i]; } else { assert (p + q)[i] == q[i - |p|]; }
      }
    }
    SplitJoin(p + q, sep);
  }

  // ---------------------------------------------------------------------
  // Parsing a `u32` (Rust's `str::parse::<u32>`)
  // ---------------------------------------------------------------------

  predicate IsAsciiDigit(c: char) {
    '0' <= c <= '9'
  }

  predicate AllDigits(s: string) {
    forall i :: 0 <= i < |s| ==> IsAsciiDigit(s[i])
  }

  /** The value of a string of decimal digits, read most significant first. */
  function DecimalValue(ds: string): (n: nat)
    requires AllDigits(ds)
  {
    if |ds| == 0 then 0
    else DecimalValue(ds[..|ds| - 1]) * 10 + ((ds[|ds| - 1] as int) - ('0' as int))
  }

  /** `s.parse::<u32>().ok()`: an optional leading '+', then at least one
      ASCII digit and nothing else; leading zeros are allowed; a value past
      4294967295 is an overflow error. A leading '-' is rejected. */
  function ParseU32(s: string): (r: Option<u32>)
    ensures r.Some? ==> |s| >= 1 && s[0] != '-' && '.' !in s
  {
    var digits := if |s| > 0 && s[0] == '+' then s[1..] else s;
    if |digits| > 0 && AllDigits(digits) && DecimalValue(digits) <= U32_MAX
    then Some(DecimalValue(digits))
    else None
  }

  /** The canonical decimal rendering of `n` (no sign, no leading zeros). */
  function ToDecimal(n: nat): (ds: string)
    ensures |ds| >= 1 && AllDigits(ds)
  {
    var last := ['0' + ((n % 10) as char)];
    if n < 10 then last else ToDecimal(n / 10) + last
  }

  lemma {:induction false} DecimalValueToDecimal(n: nat)
    ensures DecimalValue(ToDecimal(n)) == n
  {
    var ds := ToDecimal(n);
    if n >= 10 {
      DecimalValueToDecimal(n / 10);
      assert ds[..|ds| - 1] == ToDecimal(n / 10);
    }
  }

  /** Parsing inverts rendering exactly on the `u32` range, with or without
      a leading '+'; past the range the parse fails with an overflow. */
  lemma ParseU32ToDecimal(n: nat)
    ensures ParseU32(ToDecimal(n)) == (if n <= U32_MAX then Some(n) else None)
    ensures ParseU32("+" + ToDecimal(n)) == ParseU32(ToDecimal(n))
  {
    DecimalValueToDecimal(n);
    assert ("+" + ToDecimal(n))[1..] == ToDecimal(n);
  }

  /** Strings that are not a plain unsigned decimal are rejected. */
  lemma ParseU32Rejects()
    ensures ParseU32("") == None
    ensures ParseU32("+") == None
    ensures ParseU32("-5") == None
    ensures ParseU32("x") == None
    ensures ParseU32(" 1") == None
  {
    assert !IsAsciiDigit("-5"[0]);
    assert !IsAsciiDigit(" 1"[0]);
  }

  /** A leading '+' and leading zeros are accepted. */
  lemma ParseU32Accepts()
    ensures ParseU32("007") == Some(7)
    ensures ParseU32("+12") == Some(12)
  {
    assert "+12"[1..] == "12";
    assert "12"[..1] == "1";
    assert "00"[..1] == "0" && DecimalValue("0") == 0;
    assert "007"[..2] == "00" && DecimalValue("00") == 0;
  }

  // ---------------------------------------------------------------------
  // Version components and the comparison
  // ---------------------------------------------------------------------

  /** `filter_map(|s| s.parse().ok())`: the values of the pieces that parse,
      in order; the pieces that do not parse leave no gap. */
  function ParsedPieces(pieces: seq<string>): (parts: seq<u32>)
    ensures |parts| <= |pieces|
  {
    if |pieces| == 0 then [] else ParsedPiece(pieces[0]) + ParsedPieces(pieces[1..])
  }

  /** The value of one piece as a list of zero or one components. */
  function ParsedPiece(piece: string): (parts: seq<u32>) {
    match ParseU32(piece)
    case Some(n) => [n]
    case None => []
  }

  lemma {:induction false} ParsedPiecesAppend(p: seq<string>, q: seq<string>)
    ensures ParsedPieces(p + q) == ParsedPieces(p) + ParsedPieces(q)
  {
    if |p| > 0 {
      assert (p + q)[0] == p[0];
      assert (p + q)[1..] == p[1..] + q;
      ParsedPiecesAppend(p[1..], q);
      var h := ParsedPiece(p[0]);
      assert ParsedPieces(p + q) == h + (ParsedPieces(p[1..]) + ParsedPieces(q));
      assert h + (ParsedPieces(p[1..]) + ParsedPieces(q)) == (h + ParsedPieces(p[1..])) + ParsedPieces(q);
    } else {
      assert p + q == q;
    }
  }

  /** The numeric components of a version string. */
  function Components(v: string): (parts: seq<u32>) {
    ParsedPieces(Split(v, '.'))
  }

  /** `parts.get(i).unwrap_or(&0)`. */
  function ComponentAt(parts: seq<u32>, i: nat): (c: u32) {
    if i < |parts| then parts[i] else 0
  }

  /** The zero-padded first three components. */
  datatype Triple = Triple(first: u32, second: u32, third: u32)

  function Key(v: string): (key: Triple) {
    var parts := Components(v);
    Triple(ComponentAt(parts, 0), ComponentAt(parts, 1), ComponentAt(parts, 2))
  }

  /** Strict lexicographic order on triples. */
  predicate TripleLess(a: Triple, b: Triple) {
    || a.first < b.first
    || (a.first == b.first && a.second < b.second)
    || (a.first == b.first && a.second == b.second && a.third < b.third)
  }

  /** One round of the `for i in 0..3` loop and the rounds after it. */
  function NewerFrom(current: seq<u32>, latest: seq<u32>, i: nat): (newer: bool)
    decreases 3 - i
  {
    if i >= 3 then false
    else
      var curr := ComponentAt(current, i);
      var lat := ComponentAt(latest, i);
      if lat > curr then true
      else if lat < curr then false
      else NewerFrom(current, latest, i + 1)
  }

  /** `is_newer_version(current, latest)`: true exactly when the padded
      triple of `latest` is lexicographically greater than that of `current`. */
  function IsNewerVersion(current: string, latest: string): (newer: bool)
    ensures newer <==> TripleLess(Key(current), Key(latest))
  {
    NewerFrom(Components(current), Components(latest), 0)
  }

  // ---------------------------------------------------------------------
  // Laws of the comparison
  // ---------------------------------------------------------------------

  /** No version is newer than itself. */
  lemma NewerIrreflexive(v: string)
    ensures !IsNewerVersion(v, v)
  {
  }

  /** Two versions are never each newer than the other. */
  lemma NewerAsymmetric(a: string, b: string)
    ensures !(IsNewerVersion(a, b) && IsNewerVersion(b, a))
  {
  }

  lemma NewerTransitive(a: string, b: string, c: string)
    requires IsNewerVersion(a, b) && IsNewerVersion(b, c)
    ensures IsNewerVersion(a, c)
  {
  }

  /** Versions with different keys are always ordered one way or the other;
      versions with equal keys are never ordered. */
  lemma NewerTrichotomy(a: string, b: string)
    ensures Key(a) == Key(b) <==> !IsNewerVersion(a, b) && !IsNewerVersion(b, a)
  {
  }

  /** Appending ".0" appends the component 0. */
  lemma ComponentsAppendZero(v: string)
    ensures Components(v + ".0") == Components(v) + [0]
  {
    assert v + ".0" == v + ['.'] + "0";
    SplitAppend(v, "0", '.');
    SplitNoSep("0", '.');
    ParsedPiecesAppend(Split(v, '.'), ["0"]);
    assert ParseU32("0") == Some(0);
    assert ParsedPieces(["0"]) == [0];
  }

  /** Appending ".0" to a version with fewer than three components does not
      change it: missing positions count as 0. */
  lemma ZeroPadding(v: string)
    requires |Components(v)| < 3
    ensures Key(v + ".0") == Key(v)
    ensures !IsNewerVersion(v, v + ".0") && !IsNewerVersion(v + ".0", v)
  {
    ComponentsAppendZero(v);
  }

  /** Anything after the third numeric component is ignored. */
  lemma {:induction false} OnlyThreeComponents(v: string, extra: string)
    requires |Components(v)| >= 3
    ensures Key(v + "." + extra) == Key(v)
    ensures !IsNewerVersion(v, v + "." + extra) && !IsNewerVersion(v + "." + extra, v)
  {
    assert v + "." + extra == v + ['.'] + extra;
    SplitAppend(v, extra, '.');
    ParsedPiecesAppend(Split(v, '.'), Split(extra, '.'));
    var parts := Components(v + "." + extra);
    assert parts == Components(v) + ParsedPieces(Split(extra, '.'));
    assert parts[..3] == Components(v)[..3];
  }

  /** A version rendered from three `u32` values has exactly those values
      as its key, so on canonical versions the comparison is the
      lexicographic order of the numbers. */
  lemma RenderedKey(a: u32, b: u32, c: u32)
    ensures Key(ToDecimal(a) + "." + ToDecimal(b) + "." + ToDecimal(c)) == Triple(a, b, c)
  {
    var da, db, dc := ToDecimal(a), ToDecimal(b), ToDecimal(c);
    ParseU32ToDecimal(a);
    ParseU32ToDecimal(b);
    ParseU32ToDecimal(c);
    SplitThree(da, db, dc);
    ParsedPiecesThree(da, db, dc);
  }

  lemma ParsedPiecesThree(x: string, y: string, z: string)
    ensures ParsedPieces([x, y, z]) == ParsedPieces([x]) + ParsedPieces([y]) + ParsedPieces([z])
  {
    assert [x, y, z][1..] == [y, z];
    assert [y, z][1..] == [z];
  }

  /** Three separator-free pieces joined by dots split back into three. */
  lemma SplitThree(a: string, b: string, c: string)
    requires '.' !in a && '.' !in b && '.' !in c
    ensures Split(a + "." + b + "." + c, '.') == [a, b, c]
  {
    var pieces := [a, b, c];
    assert Join([c], '.') == c;
    assert Join([b, c], '.') == b + ['.'] + c by {
      assert [b, c][1..] == [c];
    }
    assert Join(pieces, '.') == a + ['.'] + (b + ['.'] + c) by {
      assert pieces[1..] == [b, c];
    }
    assert a + "." + b + "." + c == a + ['.'] + (b + ['.'] + c);
    SplitJoin(pieces, '.');
  }

  /** A one-character piece that is a digit parses as that digit. */
  lemma ParseDigit(piece: string)
    requires |piece| == 1 && IsAsciiDigit(piece[0])
    ensures ParseU32(piece) == Some((piece[0] as int) - ('0' as int))
  {
    assert AllDigits(piece);
    assert piece[..|piece| - 1] == "";
    assert DecimalValue(piece) == (piece[0] as int) - ('0' as int);
  }

  /** A piece that does not parse is dropped before indexing, so the piece
      after it moves into its position. */
  lemma NonNumericPieceShifts(a: string, x: string, c: string, m: u32, n: u32)
    requires ParseU32(a) == Some(m) && ParseU32(x) == None && ParseU32(c) == Some(n)
    requires '.' !in x
    ensures Components(a + "." + x + "." + c) == [m, n]
    ensures Key(a + "." + x + "." + c) == Triple(m, n, 0)
  {
    SplitThree(a, x, c);
    ParsedPiecesThree(a, x, c);
  }

  /** "1.x.5" compares as 1.5.0. */
  lemma NonNumericPieceDropped(v: string)
    requires v == "1.x.5"
    ensures Key(v) == Triple(1, 5, 0)
  {
    ParseDigit("1");
    ParseDigit("5");
    assert ParseU32("x") == None by {
      assert !IsAsciiDigit("x"[0]);
    }
    assert v == "1" + "." + "x" + "." + "5";
    NonNumericPieceShifts("1", "x", "5", 1, 5);
  }

  /** "1.2" and "1.2.0" are equal versions. */
  lemma ZeroPaddingExample()
    ensures Key("1.2") == Key("1.2.0")
    ensures !IsNewerVersion("1.2", "1.2.0") && !IsNewerVersion("1.2.0", "1.2")
  {
    assert Split("1.2", '.') == ["1", "2"] by {
      assert "1.2" == "1" + ['.'] + "2";
      SplitPrefix("1", "2", '.');
      SplitNoSep("2", '.');
    }
    ParseDigit("1");
    ParseDigit("2");
    assert Components("1.2") == [1, 2] by {
      assert ["1", "2"][1..] == ["2"];
    }
    assert "1.2.0" == "1.2" + ".0";
    ZeroPadding("1.2");
  }

  /** The components of a three-piece version whose pieces all parse. */
  lemma ComponentsOfThree(a: string, b: string, c: string, x: u32, y: u32, z: u32)
    requires ParseU32(a) == Some(x) && ParseU32(b) == Some(y) && ParseU32(c) == Some(z)
    ensures Components(a + "." + b + "." + c) == [x, y, z]
  {
    SplitThree(a, b, c);
    ParsedPiecesThree(a, b, c);
  }

  /** A fourth component does not make "1.2.3.9" newer than "1.2.3". */
  lemma FourthComponentIgnoredExample(current: string, latest: string)
    requires current == "1.2.3" && latest == "1.2.3.9"
    ensures !IsNewerVersion(current, latest)
  {
    ParseDigit("1");
    ParseDigit("2");
    ParseDigit("3");
    assert current == "1" + "." + "2" + "." + "3";
    ComponentsOfThree("1", "2", "3", 1, 2, 3);
    assert latest == current + "." + "9";
    OnlyThreeComponents(current, "9");
  }

  /** Components compare as numbers, not as text: 1.10.0 is newer than 1.2.3. */
  lemma NumericComparisonExample(current: string, latest: string)
    requires current == "1.2.3" && latest == "1.10.0"
    ensures IsNewerVersion(current, latest)
  {
    ParseDigit("1");
    ParseDigit("2");
    ParseDigit("3");
    assert current == "1" + "." + "2" + "." + "3";
    ComponentsOfThree("1", "2", "3", 1, 2, 3);
    assert ParseU32("10") == Some(10) by {
      assert ToDecimal(10) == "10";
      ParseU32ToDecimal(10);
    }
    ParseDigit("0");
    assert latest == "1" + "." + "10" + "." + "0";
    ComponentsOfThree("1", "10", "0", 1, 10, 0);
  }
}
