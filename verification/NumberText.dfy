/** Numbers as text: printing a size with its suffix, and reading a number back. */
module NumberText {
  const WORD: nat := 0x1_0000_0000_0000_0000

  datatype Token = UInt(value: nat) | InvalidNumber | Overflow

  /** A string ends with a zero character. */
  function At(s: string, k: nat): char { if k < |s| then s[k] else '\0' }

  predicate Decimal(c: char) { '0' <= c <= '9' }

  predicate Hexadecimal(c: char) { Decimal(c) || 'a' <= c <= 'f' || 'A' <= c <= 'F' }

  predicate Alphanumeric(c: char) { Decimal(c) || 'a' <= c <= 'z' || 'A' <= c <= 'Z' || c == '_' || c == '=' }

  function Digit(c: char): nat
    requires Hexadecimal(c)
  {
    if Decimal(c) then (c - '0') as nat else if 'a' <= c then (c - 'a') as nat + 10 else (c - 'A') as nat + 10
  }

  /** The suffix and how far it reaches. */
  function Suffix(c: char): (nat, nat) {
    if c == 'k' then (1000, 1)
    else if c == 'K' then (1024, 1)
    else if c == 'M' then (1048576, 1)
    else if c == 'G' then (1073741824, 1)
    else (1, 0)
  }

  /** Where a run of digits ends and what it adds up to, in 64 bits, or the report of a wrap-around. */
  datatype Scan = Scanned(value: nat, end: nat) | Wrapped

  function ScanDecimal(s: string, k: nat, i: nat): (r: Scan)
    requires k <= |s| && i < WORD
    ensures r.Scanned? ==> k <= r.end <= |s| && r.value < WORD
    decreases |s| - k
  {
    if !Decimal(At(s, k)) then Scanned(i, k)
    else
      var next := (i * 10 + Digit(s[k])) % WORD;
      if next < i then Wrapped else ScanDecimal(s, k + 1, next)
  }

  function ScanHex(s: string, k: nat, i: nat): (r: Scan)
    requires k <= |s| && i < WORD
    ensures r.Scanned? ==> k <= r.end <= |s| && r.value < WORD
    decreases |s| - k
  {
    if !Hexadecimal(At(s, k)) then Scanned(i, k)
    else
      var next := (i * 16 + Digit(s[k])) % WORD;
      if next < i then Wrapped else ScanHex(s, k + 1, next)
  }

  predicate HexPrefix(s: string) { At(s, 0) == '0' && At(s, 1) == 'x' }

  /** The token and how much of the text it took; a rejected text is not consumed. */
  function Conclude(s: string, t: Token, end: nat): (Token, nat) {
    if At(s, end) != '\0' && Alphanumeric(At(s, end)) then (InvalidNumber, 0) else (t, end)
  }

  /** What follows the digits of a decimal number. */
  function Scale(s: string, i: nat, end: nat): (Token, nat) {
    var (m, n) := Suffix(At(s, end));
    var v := i * m % WORD;
    if v < i then (Overflow, 0) else Conclude(s, UInt(v), end + n)
  }

  /** `read_number` */
  function Read(s: string): (Token, nat) {
    if HexPrefix(s) then
      match ScanHex(s, 2, 0)
      case Wrapped => (Overflow, 0)
      case Scanned(i, end) => Conclude(s, UInt(i), end)
    else
      match ScanDecimal(s, 0, 0)
      case Wrapped => (Overflow, 0)
      case Scanned(i, end) =>
        if end == 0 then Conclude(s, InvalidNumber, 0) else Scale(s, i, end)
  }

  // ---------- printing ----------

  function Character(d: nat): (c: char)
    requires d < 10
    ensures Decimal(c) && Digit(c) == d
  {
    '0' + d as char
  }

  /** Decimal digits, most significant first. */
  function Digits(n: nat): (s: string)
    ensures |s| > 0 && forall k :: 0 <= k < |s| ==> Decimal(s[k])
  {
    if n < 10 then [Character(n)] else Digits(n / 10) + [Character(n % 10)]
  }

  /** `uint64_human_readable` */
  function Print(n: nat): string {
    if n == 0 then "0"
    else if n % 0x4000_0000 == 0 then Digits(n / 0x4000_0000) + "G"
    else if n % 0x10_0000 == 0 then Digits(n / 0x10_0000) + "M"
    else if n % 0x400 == 0 then Digits(n / 0x400) + "K"
    else if n % 1000 == 0 then Digits(n / 1000) + "k"
    else Digits(n)
  }

  // ---------- reading digits ----------

  predicate AllDecimal(s: string) { forall k :: 0 <= k < |s| ==> Decimal(s[k]) }

  /** The number a string of digits stands for. */
  function Value(s: string): nat
    requires AllDecimal(s)
  {
    if s == [] then 0 else Value(s[..|s| - 1]) * 10 + Digit(s[|s| - 1])
  }

  lemma {:induction false} ValueOfDigits(n: nat)
    ensures Value(Digits(n)) == n
  {
    hide Digit, Decimal;
    if n >= 10 {
      ValueOfDigits(n / 10);
      var s := Digits(n);
      assert s[..|s| - 1] == Digits(n / 10);
    } else {
      assert Digits(n)[..0] == [];
    }
  }

  lemma ValueGrows(s: string, k: nat)
    requires AllDecimal(s) && k < |s|
    ensures Value(s[..k + 1]) == Value(s[..k]) * 10 + Digit(s[k])
  {
    assert s[..k + 1][..k] == s[..k];
  }

  lemma {:induction false} PrefixSmaller(s: string, k: nat)
    requires AllDecimal(s) && k <= |s|
    ensures Value(s[..k]) <= Value(s)
    decreases |s| - k
  {
    if k == |s| {
      assert s[..k] == s;
    } else {
      PrefixSmaller(s, k + 1);
      ValueGrows(s, k);
    }
  }

  /** After some digit from the k-th on, the number so far is smaller in 64 bits than before that digit. */
  ghost predicate Dips(ds: string, k: nat)
    requires AllDecimal(ds)
  {
    exists j :: k <= j < |ds| && DipsAt(ds, j)
  }

  predicate DipsAt(ds: string, j: nat)
    requires AllDecimal(ds) && j < |ds|
  {
    Value(ds[..j + 1]) % WORD < Value(ds[..j]) % WORD
  }

  lemma Remainder(x: nat, q: nat, r: nat)
    requires x == WORD * q + r && r < WORD
    ensures x % WORD == r
  {}

  lemma DigitStep(v: nat, d: nat)
    ensures (v % WORD * 10 + d) % WORD == (v * 10 + d) % WORD
  {
    var y := v % WORD * 10 + d;
    Remainder(v * 10 + d, v / WORD * 10 + y / WORD, y % WORD);
  }

  lemma DipsStep(ds: string, k: nat)
    requires AllDecimal(ds) && k < |ds|
    ensures Dips(ds, k) <==> DipsAt(ds, k) || Dips(ds, k + 1)
  {
    hide DipsAt, Decimal;
  }

  /** The scan of any digits, however many: reported exactly when the number dips, else its 64-bit rest. */
  lemma {:induction false} ScanDigits(ds: string, tail: string, k: nat)
    requires AllDecimal(ds) && !Decimal(At(tail, 0)) && k <= |ds|
    ensures ScanDecimal(ds + tail, k, Value(ds[..k]) % WORD) ==
            if Dips(ds, k) then Wrapped else Scanned(Value(ds) % WORD, |ds|)
    decreases |ds| - k
  {
    hide Digit, Decimal, Dips;
    var s := ds + tail;
    if k == |ds| {
      assert ds[..k] == ds;
      assert At(s, k) == At(tail, 0);
      NoDigitsNoDip(ds);
    } else {
      assert s[k] == ds[k] == At(s, k);
      ValueGrows(ds, k);
      DigitStep(Value(ds[..k]), Digit(ds[k]));
      ScanDigits(ds, tail, k + 1);
      DipsStep(ds, k);
    }
  }

  lemma NoDigitsNoDip(ds: string)
    requires AllDecimal(ds)
    ensures !Dips(ds, |ds|)
  {}

  /** A number that fits never dips. */
  lemma FittingNeverDips(ds: string)
    requires AllDecimal(ds) && Value(ds) < WORD
    ensures !Dips(ds, 0)
  {
    hide Decimal, Digit, Value;
    forall j | 0 <= j < |ds| ensures !DipsAt(ds, j) {
      PrefixSmaller(ds, j);
      PrefixSmaller(ds, j + 1);
      ValueGrows(ds, j);
    }
  }

  /** A suffix as text. */
  predicate IsSuffix(suf: string) { suf == "" || suf == "k" || suf == "K" || suf == "M" || suf == "G" }

  function Factor(suf: string): (f: nat)
    ensures IsSuffix(suf) ==> f >= 1
  {
    if suf == "" then 1 else Suffix(At(suf, 0)).0
  }

  lemma NoHexPrefix(ds: string, tail: string)
    requires |ds| > 0 && AllDecimal(ds) && At(tail, 0) != 'x'
    ensures !HexPrefix(ds + tail)
  {
    var s := ds + tail;
    if |ds| > 1 {
      assert s[1] == ds[1];
    } else {
      assert At(s, 1) == At(tail, 0);
    }
  }

  /** Multiplying by the suffix, in 64 bits. */
  function Scaled(v: nat, f: nat): nat { v % WORD * f % WORD }

  /**
   What reading a decimal number gives, for any digits and whatever follows
   them: the overflow report exactly when the number dips or its product with
   the suffix is smaller in 64 bits than itself, and else the 64-bit product,
   unless a letter or digit follows.
  */
  lemma ReadDecimal(ds: string, tail: string)
    requires |ds| > 0 && AllDecimal(ds) && !Decimal(At(tail, 0)) && !HexPrefix(ds + tail)
    ensures var (f, n) := Suffix(At(tail, 0));
            Read(ds + tail) ==
            if Dips(ds, 0) || Scaled(Value(ds), f) < Value(ds) % WORD then (Overflow, 0)
            else if Alphanumeric(At(tail, n)) then (InvalidNumber, 0)
            else (UInt(Scaled(Value(ds), f)), |ds| + n)
  {
    hide Value, HexPrefix, ScanDecimal, Dips, Suffix;
    var s, n := ds + tail, Suffix(At(tail, 0)).1;
    ScanDigits(ds, tail, 0);
    ValueOfNothing(ds);
    assert At(s, |ds|) == At(tail, 0) && At(s, |ds| + n) == At(tail, n);
  }

  /** A decimal number is read exactly if and only if it fits in 64 bits. */
  lemma ReadExactIff(ds: string, suf: string, rest: string)
    requires |ds| > 0 && AllDecimal(ds) && IsSuffix(suf) && !Alphanumeric(At(rest, 0))
    ensures Read(ds + suf + rest) == (UInt(Value(ds) * Factor(suf)), |ds| + |suf|) <==> Value(ds) * Factor(suf) < WORD
  {
    hide Value, Factor, IsSuffix, Alphanumeric, Decimal, Dips, Read, HexPrefix, Suffix, Scaled, At;
    assert ds + suf + rest == ds + (suf + rest);
    TailOf(suf, rest);
    NoHexPrefix(ds, suf + rest);
    ReadDecimal(ds, suf + rest);
    FactorAtLeastOne(Value(ds), suf);
    ScaledFits(Value(ds), Factor(suf));
    if Value(ds) * Factor(suf) < WORD {
      FittingNeverDips(ds);
    }
  }

  lemma ScaledFits(v: nat, f: nat)
    requires v * f >= v
    ensures Scaled(v, f) < WORD
    ensures v * f < WORD ==> Scaled(v, f) == v * f && v % WORD == v
  {}

  lemma TailOf(suf: string, rest: string)
    requires IsSuffix(suf) && !Alphanumeric(At(rest, 0))
    ensures At(suf + rest, 0) != 'x' && !Decimal(At(suf + rest, 0))
    ensures Suffix(At(suf + rest, 0)) == (Factor(suf), |suf|) && At(suf + rest, |suf|) == At(rest, 0)
  {
    assert At(suf + rest, 0) == if suf == "" then At(rest, 0) else At(suf, 0);
  }

  lemma ValueOfNothing(ds: string)
    requires AllDecimal(ds)
    ensures Value(ds[..0]) == 0
  {}

  lemma FactorAtLeastOne(v: nat, suf: string)
    requires IsSuffix(suf)
    ensures v * Factor(suf) >= v
  {}

  /** A number below two to the sixty-fourth, printed with a suffix, is read back. */
  lemma PrintedReads(q: nat, suf: string)
    requires IsSuffix(suf) && q * Factor(suf) < WORD
    ensures Read(Digits(q) + suf) == (UInt(q * Factor(suf)), |Digits(q) + suf|)
  {
    hide Read, Digits, Value, Factor, IsSuffix;
    ValueOfDigits(q);
    ReadExactIff(Digits(q), suf, "");
    assert Digits(q) + suf + "" == Digits(q) + suf;
  }

  lemma Factors()
    ensures IsSuffix("") && IsSuffix("G") && IsSuffix("M") && IsSuffix("K") && IsSuffix("k")
    ensures Factor("") == 1 && Factor("G") == 0x4000_0000 && Factor("M") == 0x10_0000
    ensures Factor("K") == 0x400 && Factor("k") == 1000
  {}

  /** What is printed is read back, all of it, as the same number. */
  lemma RoundTrip(n: nat)
    requires n < WORD
    ensures Read(Print(n)) == (UInt(n), |Print(n)|)
  {
    hide Read, Digits, Value, Factor, IsSuffix;
    Factors();
    DigitsOfZero();
    var (q, suf) :=
      if n == 0 then (0, "")
      else if n % 0x4000_0000 == 0 then (n / 0x4000_0000, "G")
      else if n % 0x10_0000 == 0 then (n / 0x10_0000, "M")
      else if n % 0x400 == 0 then (n / 0x400, "K")
      else if n % 1000 == 0 then (n / 1000, "k")
      else (n, "");
    PrintedReads(q, suf);
    assert Digits(q) + "" == Digits(q);
  }

  lemma DigitsOfZero()
    ensures Digits(0) == "0"
  {}

  /** With one digit too many the report depends on the last digit alone. */
  lemma OneDigitMore(n: nat, d: nat)
    requires n < WORD && d < 10
    ensures Read(Digits(n) + [Character(d)]).0 ==
            if (n * 10 + d) % WORD < n then Overflow else UInt((n * 10 + d) % WORD)
  {
    hide Digits, Value, Digit, Decimal, Character, Dips, Read;
    var ds, s := Digits(n), Digits(n) + [Character(d)];
    ValueOfDigits(n);
    ValueGrows(s, |ds|);
    assert s[..|ds|] == ds && s[..|s|] == s && s + "" == s;
    EndOfText();
    NoHexPrefix(s, "");
    ReadDecimal(s, "");
    FittingNeverDips(ds);
    LastDip(ds, Character(d));
  }

  /** When the number before the last digit does not dip, only the last digit can. */
  lemma LastDip(ds: string, c: char)
    requires AllDecimal(ds) && Decimal(c) && !Dips(ds, 0)
    ensures Dips(ds + [c], 0) <==> Value(ds + [c]) % WORD < Value(ds) % WORD
  {
    hide Value, Decimal;
    var s := ds + [c];
    assert s[..|ds|] == ds && s[..|s|] == s;
    assert DipsAt(s, |ds|) <==> Value(s) % WORD < Value(ds) % WORD;
    forall j | 0 <= j < |ds| ensures DipsAt(s, j) == DipsAt(ds, j) {
      assert s[..j] == ds[..j] && s[..j + 1] == ds[..j + 1];
    }
  }

  /** Ten times two to the sixty-first is accepted, as two to the sixty-second. */
  lemma OverflowMissed()
    ensures Read(Digits(0x2000_0000_0000_0000) + "0").0 == UInt(0x4000_0000_0000_0000)
  {
    hide Read, Digits;
    OneDigitMore(0x2000_0000_0000_0000, 0);
    assert Character(0) == '0';
  }

  lemma EndOfText()
    ensures !Alphanumeric('\0') && !Decimal('\0') && !Decimal('K')
  {}

  /** So is a number of kilobytes above two to the sixty-fourth, written with a suffix. */
  lemma SuffixOverflowMissed()
    ensures Read(Digits(0x40_2000_0000_0000) + "K").0 == UInt(0x80_0000_0000_0000)
  {
    hide Read, Digits, Value, Decimal;
    var ds := Digits(0x40_2000_0000_0000);
    ValueOfDigits(0x40_2000_0000_0000);
    FittingNeverDips(ds);
    EndOfText();
    NoHexPrefix(ds, "K");
    ReadDecimal(ds, "K");
  }

  // ---------- hexadecimal numbers ----------

  predicate AllHex(s: string) { forall k :: 0 <= k < |s| ==> Hexadecimal(s[k]) }

  function HexValue(s: string): nat
    requires AllHex(s)
  {
    if s == [] then 0 else HexValue(s[..|s| - 1]) * 16 + Digit(s[|s| - 1])
  }

  lemma HexGrows(s: string, k: nat)
    requires AllHex(s) && k < |s|
    ensures HexValue(s[..k + 1]) == HexValue(s[..k]) * 16 + Digit(s[k])
  {
    assert s[..k + 1][..k] == s[..k];
  }

  lemma {:induction false} HexPrefixSmaller(s: string, k: nat)
    requires AllHex(s) && k <= |s|
    ensures HexValue(s[..k]) <= HexValue(s)
    decreases |s| - k
  {
    if k == |s| {
      assert s[..k] == s;
    } else {
      HexPrefixSmaller(s, k + 1);
      HexGrows(s, k);
    }
  }

  /** After some digit from the k-th on, the number so far is smaller in 64 bits than before that digit. */
  ghost predicate HexDips(ds: string, k: nat)
    requires AllHex(ds)
  {
    exists j :: k <= j < |ds| && HexDipsAt(ds, j)
  }

  predicate HexDipsAt(ds: string, j: nat)
    requires AllHex(ds) && j < |ds|
  {
    HexValue(ds[..j + 1]) % WORD < HexValue(ds[..j]) % WORD
  }

  lemma HexStep(v: nat, d: nat)
    ensures (v % WORD * 16 + d) % WORD == (v * 16 + d) % WORD
  {
    var y := v % WORD * 16 + d;
    Remainder(v * 16 + d, v / WORD * 16 + y / WORD, y % WORD);
  }

  lemma HexDipsStep(ds: string, k: nat)
    requires AllHex(ds) && k < |ds|
    ensures HexDips(ds, k) <==> HexDipsAt(ds, k) || HexDips(ds, k + 1)
  {
    hide HexDipsAt, Hexadecimal;
  }

  lemma NoDigitsNoHexDip(ds: string)
    requires AllHex(ds)
    ensures !HexDips(ds, |ds|)
  {}

  lemma {:induction false} ScanHexDigits(ds: string, rest: string, k: nat)
    requires AllHex(ds) && !Hexadecimal(At(rest, 0)) && k <= |ds|
    ensures ScanHex("0x" + ds + rest, 2 + k, HexValue(ds[..k]) % WORD) ==
            if HexDips(ds, k) then Wrapped else Scanned(HexValue(ds) % WORD, 2 + |ds|)
    decreases |ds| - k
  {
    hide Digit, Hexadecimal, HexDips;
    var s := "0x" + ds + rest;
    if k == |ds| {
      assert ds[..k] == ds;
      assert At(s, 2 + k) == At(rest, 0);
      NoDigitsNoHexDip(ds);
    } else {
      assert s[2 + k] == ds[k] == At(s, 2 + k);
      HexGrows(ds, k);
      HexStep(HexValue(ds[..k]), Digit(ds[k]));
      ScanHexDigits(ds, rest, k + 1);
      HexDipsStep(ds, k);
    }
  }

  /** What reading a hexadecimal number gives, for any digits, none included, and any rest. */
  lemma ReadHex(ds: string, rest: string)
    requires AllHex(ds) && !Hexadecimal(At(rest, 0))
    ensures Read("0x" + ds + rest) ==
            if HexDips(ds, 0) then (Overflow, 0)
            else if Alphanumeric(At(rest, 0)) then (InvalidNumber, 0)
            else (UInt(HexValue(ds) % WORD), 2 + |ds|)
  {
    hide HexValue, ScanHex, Hexadecimal, HexDips, Digit;
    var s := "0x" + ds + rest;
    ScanHexDigits(ds, rest, 0);
    HexOfNothing(ds);
    assert s[0] == '0' && s[1] == 'x';
    assert At(s, 2 + |ds|) == At(rest, 0);
  }

  lemma FittingHexNeverDips(ds: string)
    requires AllHex(ds) && HexValue(ds) < WORD
    ensures !HexDips(ds, 0)
  {
    hide Hexadecimal, Digit, HexValue;
    forall j | 0 <= j < |ds| ensures !HexDipsAt(ds, j) {
      HexPrefixSmaller(ds, j);
      HexPrefixSmaller(ds, j + 1);
      HexGrows(ds, j);
    }
  }

  /** A hexadecimal number is read exactly if and only if it fits in 64 bits. */
  lemma ReadHexExactIff(ds: string, rest: string)
    requires AllHex(ds) && !Alphanumeric(At(rest, 0))
    ensures Read("0x" + ds + rest) == (UInt(HexValue(ds)), 2 + |ds|) <==> HexValue(ds) < WORD
  {
    hide HexValue, HexDips, Read, Digit;
    ReadHex(ds, rest);
    if HexValue(ds) < WORD {
      FittingHexNeverDips(ds);
    }
  }

  /** The prefix alone is rejected exactly when a letter or digit follows; else it reads as 0. */
  lemma BarePrefixIff(rest: string)
    requires !Hexadecimal(At(rest, 0))
    ensures Read("0x" + rest).0 == InvalidNumber <==> Alphanumeric(At(rest, 0))
    ensures !Alphanumeric(At(rest, 0)) ==> Read("0x" + rest) == (UInt(0), 2)
  {
    hide Read, Hexadecimal, Alphanumeric;
    ReadHex("", rest);
    NoDigitsNoHexDip("");
    assert "0x" + "" + rest == "0x" + rest;
  }

  lemma HexOfNothing(ds: string)
    requires AllHex(ds)
    ensures HexValue(ds[..0]) == 0
  {}

  // ---------- the loops ----------

  method ReadMultiply(s: string, k: nat) returns (factor: nat, end: nat)
    ensures (factor, end) == (Suffix(At(s, k)).0, k + Suffix(At(s, k)).1)
  {
    match At(s, k)
    case 'k' => factor, end := 1000, k + 1;
    case 'K' => factor, end := 1024, k + 1;
    case 'M' => factor, end := 1048576, k + 1;
    case 'G' => factor, end := 1073741824, k + 1;
    case _ => factor, end := 1, k;
  }

  method ReadNumber(s: string) returns (t: Token, used: nat)
    ensures (t, used) == Read(s)
  {
    var i, k := 0, 0;
    if At(s, 0) == '0' && At(s, 1) == 'x' {
      k := 2;
      while Hexadecimal(At(s, k))
        invariant k <= |s| && i < WORD && ScanHex(s, 2, 0) == ScanHex(s, k, i)
        decreases |s| - k
      {
        var before := i;
        i := (i * 16 + Digit(s[k])) % WORD;
        k := k + 1;
        if i < before {
          return Overflow, 0;
        }
      }
      t := UInt(i);
    } else {
      while Decimal(At(s, k))
        invariant k <= |s| && i < WORD && ScanDecimal(s, 0, 0) == ScanDecimal(s, k, i)
        decreases |s| - k
      {
        var before := i;
        i := (i * 10 + Digit(s[k])) % WORD;
        k := k + 1;
        if i < before {
          return Overflow, 0;
        }
      }
      if k > 0 {
        var before := i;
        var factor;
        factor, k := ReadMultiply(s, k);
        i := i * factor % WORD;
        if i < before {
          return Overflow, 0;
        }
        t := UInt(i);
      } else {
        t := InvalidNumber;
      }
    }
    if At(s, k) != '\0' && Alphanumeric(At(s, k)) {
      return InvalidNumber, 0;
    }
    used := k;
  }

  method HumanReadable(i: nat) returns (s: string)
    requires i < WORD
    ensures s == Print(i)
    ensures Read(s) == (UInt(i), |s|)
  {
    RoundTrip(i);
    hide Digits;
    s := "";
    if i == 0 {
      s := s + "0";
    } else if i % 0x4000_0000 == 0 {
      s := s + Digits(i / 0x4000_0000) + "G";
    } else if i % 0x10_0000 == 0 {
      s := s + Digits(i / 0x10_0000) + "M";
    } else if i % 0x400 == 0 {
      s := s + Digits(i / 0x400) + "K";
    } else if i % 1000 == 0 {
      s := s + Digits(i / 1000) + "k";
    } else {
      s := s + Digits(i);
    }
  }
}
