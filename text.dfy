/** Text handling the word-count functions rely on: UTF-8 encoding of
    keys (a Go string is its UTF-8 bytes), splitting text into maximal
    runs of letters (strings.FieldsFunc with the "not a letter"
    separator), and decimal formatting of counts (fmt's %d). */
module Text {
  import opened Types

  // ---------------------------------------------------------------------
  // UTF-8

  /** The UTF-8 encoding of one code point. */
  function EncodeRune(c: char): (r: Bytes)
    ensures 1 <= |r| <= 4
    ensures (c as int < 0x80) == (|r| == 1)
    ensures |r| == 1 ==> r[0] == c as int
    ensures forall i :: 1 <= i < |r| ==> 0x80 <= r[i] < 0xC0
  {
    var n := c as int;
    if n < 0x80 then [n]
    else if n < 0x800 then [0xC0 + n / 0x40, 0x80 + n % 0x40]
    else if n < 0x10000 then [0xE0 + n / 0x1000, 0x80 + (n / 0x40) % 0x40, 0x80 + n % 0x40]
    else [0xF0 + n / 0x40000, 0x80 + (n / 0x1000) % 0x40, 0x80 + (n / 0x40) % 0x40, 0x80 + n % 0x40]
  }

  /** The UTF-8 encoding of a string. */
  function Encode(s: seq<char>): Bytes
    decreases |s|
  {
    if s == [] then [] else EncodeRune(s[0]) + Encode(s[1..])
  }

  /** The number of bytes a rune with this leading byte occupies. */
  function RuneLength(b: Byte): nat
  {
    if b < 0x80 then 1 else if b < 0xE0 then 2 else if b < 0xF0 then 3 else 4
  }

  /** The payload of a continuation byte. */
  function Low6(b: Byte): int
  {
    b as int - 0x80
  }

  /** The code point encoded by the first rune of a well-formed encoding. */
  function DecodeRune(bs: Bytes): int
    requires |bs| > 0 && |bs| >= RuneLength(bs[0])
  {
    var b0 := bs[0] as int;
    if b0 < 0x80 then b0
    else if b0 < 0xE0 then (b0 - 0xC0) * 0x40 + Low6(bs[1])
    else if b0 < 0xF0 then (b0 - 0xE0) * 0x1000 + Low6(bs[1]) * 0x40 + Low6(bs[2])
    else (b0 - 0xF0) * 0x40000 + Low6(bs[1]) * 0x1000 + Low6(bs[2]) * 0x40 + Low6(bs[3])
  }

  datatype Option<T> = None | Some(value: T)

  /** The code points of a well-formed encoding, or None if a rune is cut short. */
  function Decode(bs: Bytes): Option<seq<int>>
    decreases |bs|
  {
    if bs == [] then Some([])
    else if |bs| < RuneLength(bs[0]) then None
    else match Decode(bs[RuneLength(bs[0])..])
      case None => None
      case Some(rest) => Some([DecodeRune(bs)] + rest)
  }

  /** The code points of a string. */
  function CodePoints(s: seq<char>): seq<int>
  {
    seq(|s|, i requires 0 <= i < |s| => s[i] as int)
  }

  /** Encoding one rune tells its own length, and decoding it gives the
      code point back. */
  lemma EncodeRuneRoundTrip(c: char, rest: Bytes)
    ensures var e := EncodeRune(c);
      RuneLength(e[0]) == |e| && DecodeRune(e + rest) == c as int
  {
    var n := c as int;
    var e := EncodeRune(c);
    var x := e + rest;
    if n < 0x80 {
    } else if n < 0x800 {
      assert x[0] == 0xC0 + n / 0x40 && x[1] == 0x80 + n % 0x40;
    } else if n < 0x10000 {
      assert x[0] == 0xE0 + n / 0x1000 && x[1] == 0x80 + (n / 0x40) % 0x40 && x[2] == 0x80 + n % 0x40;
      Digits64(n, 0x40);
    } else {
      assert x[0] == 0xF0 + n / 0x40000 && x[1] == 0x80 + (n / 0x1000) % 0x40;
      assert x[2] == 0x80 + (n / 0x40) % 0x40 && x[3] == 0x80 + n % 0x40;
      Digits64(n, 0x40);
      Digits64(n, 0x1000);
    }
  }

  /** Splitting off one more base-64 digit. */
  lemma Digits64(n: nat, d: nat)
    requires d == 0x40 || d == 0x1000
    ensures n / d == (n / (d * 0x40)) * 0x40 + (n / d) % 0x40
    ensures n / (d * 0x40) == (n / d) / 0x40
  {
  }

  /** Decoding an encoding gives back the code points of the string. */
  lemma {:induction false} DecodeEncode(s: seq<char>)
    ensures Decode(Encode(s)) == Some(CodePoints(s))
    decreases |s|
  {
    if s == [] {
    } else {
      var e := EncodeRune(s[0]);
      var bs := Encode(s);
      assert bs == e + Encode(s[1..]);
      EncodeRuneRoundTrip(s[0], Encode(s[1..]));
      assert bs[0] == e[0];
      assert bs[RuneLength(bs[0])..] == Encode(s[1..]);
      DecodeEncode(s[1..]);
      assert CodePoints(s) == [s[0] as int] + CodePoints(s[1..]);
    }
  }

  /** Encoding distributes over concatenation. */
  lemma {:induction false} EncodeConcat(a: seq<char>, b: seq<char>)
    ensures Encode(a + b) == Encode(a) + Encode(b)
    decreases |a|
  {
    if a == [] {
      assert a + b == b;
    } else {
      assert (a + b)[0] == a[0];
      assert (a + b)[1..] == a[1..] + b;
      EncodeConcat(a[1..], b);
    }
  }

  /** An ASCII string encodes to its own character codes, one byte each. */
  lemma {:induction false} EncodeAscii(w: seq<char>)
    requires forall i :: 0 <= i < |w| ==> w[i] as int < 0x80
    ensures |Encode(w)| == |w|
    ensures forall i :: 0 <= i < |w| ==> Encode(w)[i] == w[i] as int
    decreases |w|
  {
    if w != [] {
      EncodeAscii(w[1..]);
      assert Encode(w) == [w[0] as int] + Encode(w[1..]);
    }
  }

  // ---------------------------------------------------------------------
  // Splitting into words

  /** The length of the run of letters at the front of s. */
  function LetterRun(s: seq<char>, isLetter: char -> bool): (n: nat)
    ensures n <= |s|
    ensures forall i :: 0 <= i < n ==> isLetter(s[i])
    ensures n < |s| ==> !isLetter(s[n])
    decreases |s|
  {
    if s == [] || !isLetter(s[0]) then 0 else 1 + LetterRun(s[1..], isLetter)
  }

  /** The maximal non-empty runs of letters of s, in order: what
      FieldsFunc returns when the separator test is "not a letter". */
  function Fields(s: seq<char>, isLetter: char -> bool): seq<seq<char>>
    decreases |s|
  {
    if s == [] then []
    else if !isLetter(s[0]) then Fields(s[1..], isLetter)
    else
      var n := LetterRun(s, isLetter);
      [s[..n]] + Fields(s[n..], isLetter)
  }

  predicate AllLetters(w: seq<char>, isLetter: char -> bool)
  {
    forall i :: 0 <= i < |w| ==> isLetter(w[i])
  }

  /** The letters of s, in order. */
  function Letters(s: seq<char>, isLetter: char -> bool): seq<char>
    decreases |s|
  {
    if s == [] then [] else (if isLetter(s[0]) then [s[0]] else []) + Letters(s[1..], isLetter)
  }

  function Flatten(ws: seq<seq<char>>): seq<char>
    decreases |ws|
  {
    if ws == [] then [] else ws[0] + Flatten(ws[1..])
  }

  /** Any prefix of letters that stops at a non-letter or at the end is
      the letter run. */
  lemma {:induction false} LetterRunUnique(s: seq<char>, isLetter: char -> bool, n: nat)
    requires n <= |s| && AllLetters(s[..n], isLetter)
    requires n < |s| ==> !isLetter(s[n])
    ensures LetterRun(s, isLetter) == n
    decreases n
  {
    if n > 0 {
      assert isLetter(s[..n][0]);
      assert s[1..][..n - 1] == s[..n][1..];
      LetterRunUnique(s[1..], isLetter, n - 1);
    }
  }

  /** Every field is a non-empty word made of letters only. */
  lemma {:induction false} FieldsAreWords(s: seq<char>, isLetter: char -> bool)
    ensures forall k :: 0 <= k < |Fields(s, isLetter)| ==>
      |Fields(s, isLetter)[k]| > 0 && AllLetters(Fields(s, isLetter)[k], isLetter)
    decreases |s|
  {
    if s == [] {
    } else if !isLetter(s[0]) {
      FieldsAreWords(s[1..], isLetter);
    } else {
      var n := LetterRun(s, isLetter);
      FieldsAreWords(s[n..], isLetter);
    }
  }

  /** The fields together hold exactly the letters of s, in order. */
  lemma {:induction false} FieldsKeepLetters(s: seq<char>, isLetter: char -> bool)
    ensures Flatten(Fields(s, isLetter)) == Letters(s, isLetter)
    decreases |s|
  {
    if s == [] {
    } else if !isLetter(s[0]) {
      FieldsKeepLetters(s[1..], isLetter);
    } else {
      var n := LetterRun(s, isLetter);
      FieldsKeepLetters(s[n..], isLetter);
      LettersOfRun(s, isLetter, n);
      var ws := Fields(s, isLetter);
      assert ws[0] == s[..n] && ws[1..] == Fields(s[n..], isLetter);
    }
  }

  /** A run of letters contributes itself to Letters. */
  lemma {:induction false} LettersOfRun(s: seq<char>, isLetter: char -> bool, n: nat)
    requires n <= |s| && AllLetters(s[..n], isLetter)
    ensures Letters(s, isLetter) == s[..n] + Letters(s[n..], isLetter)
    decreases n
  {
    if n > 0 {
      assert s[..n][0] == s[0];
      assert s[1..][..n - 1] == s[..n][1..];
      LettersOfRun(s[1..], isLetter, n - 1);
      assert s[1..][n - 1..] == s[n..];
      assert s[..n] == [s[0]] + s[1..][..n - 1];
    }
  }

  /** A separator splits the fields: the fields of a, then those of b. */
  lemma {:induction false} FieldsSplit(a: seq<char>, c: char, b: seq<char>, isLetter: char -> bool)
    requires !isLetter(c)
    ensures Fields(a + [c] + b, isLetter) == Fields(a, isLetter) + Fields(b, isLetter)
    decreases |a|
  {
    var s := a + [c] + b;
    if a == [] {
      assert s[1..] == b;
    } else if !isLetter(a[0]) {
      assert s[0] == a[0];
      assert s[1..] == a[1..] + [c] + b;
      FieldsSplit(a[1..], c, b, isLetter);
    } else {
      assert s[0] == a[0];
      var n := LetterRun(a, isLetter);
      assert s[..n] == a[..n];
      assert n < |s| && s[n] == (if n < |a| then a[n] else c);
      LetterRunUnique(s, isLetter, n);
      assert s[n..] == a[n..] + [c] + b;
      FieldsSplit(a[n..], c, b, isLetter);
    }
  }

  /** A word of letters is its own single field. */
  lemma WordIsOneField(w: seq<char>, isLetter: char -> bool)
    requires |w| > 0 && AllLetters(w, isLetter)
    ensures Fields(w, isLetter) == [w]
  {
    assert w[..|w|] == w;
    LetterRunUnique(w, isLetter, |w|);
    assert w[|w|..] == [];
  }

  /** Words joined with a separator between each pair. */
  function JoinWith(ws: seq<seq<char>>, sep: char): seq<char>
    decreases |ws|
  {
    if ws == [] then [] else if |ws| == 1 then ws[0] else ws[0] + [sep] + JoinWith(ws[1..], sep)
  }

  /** Splitting undoes joining: words of letters joined with a
      non-letter come back as they were. */
  lemma {:induction false} FieldsJoin(ws: seq<seq<char>>, sep: char, isLetter: char -> bool)
    requires !isLetter(sep)
    requires forall k :: 0 <= k < |ws| ==> |ws[k]| > 0 && AllLetters(ws[k], isLetter)
    ensures Fields(JoinWith(ws, sep), isLetter) == ws
    decreases |ws|
  {
    if ws == [] {
    } else if |ws| == 1 {
      WordIsOneField(ws[0], isLetter);
    } else {
      WordIsOneField(ws[0], isLetter);
      FieldsJoin(ws[1..], sep, isLetter);
      FieldsSplit(ws[0], sep, JoinWith(ws[1..], sep), isLetter);
    }
  }

  /** Letter test exact on ASCII, used in the concrete examples. */
  predicate AsciiLetter(c: char)
  {
    ('a' <= c <= 'z') || ('A' <= c <= 'Z')
  }

  /** The word-count example: four fields, in input order. */
  lemma FieldsExample()
    ensures Fields("hello world goodbye world", AsciiLetter) == ["hello", "world", "goodbye", "world"]
  {
    var ws := ["hello", "world", "goodbye", "world"];
    assert AllLetters("hello", AsciiLetter) && AllLetters("world", AsciiLetter);
    assert AllLetters("goodbye", AsciiLetter);
    FieldsJoin(ws, ' ', AsciiLetter);
    JoinExample();
  }

  lemma JoinExample()
    ensures JoinWith(["hello", "world", "goodbye", "world"], ' ') == "hello world goodbye world"
  {
    var ws := ["hello", "world", "goodbye", "world"];
    assert ws[1..] == ["world", "goodbye", "world"];
    assert ws[1..][1..] == ["goodbye", "world"];
    assert ws[1..][1..][1..] == ["world"];
  }

  // ---------------------------------------------------------------------
  // Decimal numbers

  predicate IsDigit(b: Byte)
  {
    0x30 <= b <= 0x39
  }

  /** The decimal representation of n (what %d prints for a non-negative int). */
  function Decimal(n: nat): (r: Bytes)
    ensures |r| >= 1 && forall i :: 0 <= i < |r| ==> IsDigit(r[i])
    ensures r[0] == 0x30 ==> n == 0
    decreases n
  {
    if n < 10 then [0x30 + n] else Decimal(n / 10) + [0x30 + n % 10]
  }

  /** The value of a string of decimal digits. */
  function ParseDecimal(s: Bytes): nat
    requires forall i :: 0 <= i < |s| ==> IsDigit(s[i])
    decreases |s|
  {
    if s == [] then 0
    else
      assert IsDigit(s[|s| - 1]);
      ParseDecimal(s[..|s| - 1]) * 10 + (s[|s| - 1] as int - 0x30)
  }

  /** Reading a printed count back gives the count. */
  lemma {:induction false} DecimalRoundTrip(n: nat)
    ensures ParseDecimal(Decimal(n)) == n
    decreases n
  {
    var d := Decimal(n);
    if n >= 10 {
      assert d[..|d| - 1] == Decimal(n / 10);
      DecimalRoundTrip(n / 10);
    }
  }
}
