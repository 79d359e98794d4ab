/** The helpers shared by every implementation: converting between combos
    and position sequences, counting combinations, splitting and formatting
    strings, drawing a ruler, and cutting an input into chunks. */
module Util {
  import opened Wrappers
  import opened Bits
  import opened Seqs
  import opened Combinatorics
  import opened Rulers

  // ---------------------------------------------------------------------
  // Combos and position sequences

  /** Walk the bit values 1, 2, 4, ... up to the number, listing the
      positions whose bit is set; a negative number lists nothing. */
  method SequenceFromBits(bitsInt: int) returns (sequence: seq<nat>)
    ensures bitsInt < 0 ==> sequence == []
    ensures bitsInt >= 0 ==> sequence == Positions(bitsInt)
  {
    sequence := [];
    var bitPosition: nat := 0;
    var bitValue: nat := Pow2(bitPosition);
    while bitsInt >= bitValue
      invariant bitValue == Pow2(bitPosition)
      invariant bitsInt < 0 ==> sequence == []
      invariant bitsInt >= 0 ==> Positions(bitsInt) == sequence + PositionsFrom(Shr(bitsInt, bitPosition), bitPosition)
      decreases bitsInt - bitValue
    {
      var rest := Shr(bitsInt, bitPosition);
      ShrPositive(bitsInt, bitPosition);
      AndPow2(bitsInt, bitPosition);
      ShrBit(bitsInt, bitPosition, 0);
      ShrStep(bitsInt, bitPosition);
      assert PositionsFrom(rest, bitPosition) ==
        (if rest % 2 == 1 then [bitPosition] else []) + PositionsFrom(Shr(bitsInt, bitPosition + 1), bitPosition + 1);
      if And(bitsInt, bitValue) != 0 {
        sequence := sequence + [bitPosition];
      }
      bitPosition := bitPosition + 1;
      bitValue := Pow2(bitPosition);
    }
    if bitsInt >= 0 {
      ShrPositive(bitsInt, bitPosition);
    }
  }

  /** OR together 1 << p for every position p from 0 up to the largest
      entry that occurs in the sequence. */
  method BitsFromSequence(sequence: seq<int>) returns (bitsInt: nat)
    ensures bitsInt == BitsOf(sequence)
  {
    bitsInt := 0;
    if sequence == [] {
      return 0;
    }
    var top := Max(sequence);
    var bitPosition: nat := 0;
    forall p: nat
      ensures !HasBit(0, p)
    {
      HasBitZero(p);
    }
    while bitPosition < top + 1
      invariant bitPosition <= top + 1 || top < 0
      invariant forall p: nat :: HasBit(bitsInt, p) <==> p < bitPosition && p in sequence
    {
      if bitPosition in sequence {
        var bitValue := Shl(1, bitPosition);
        forall p: nat
          ensures HasBit(Or(bitsInt, bitValue), p) <==> HasBit(bitsInt, p) || p == bitPosition
        {
          BitwiseBit(OrOp, bitsInt, bitValue, p);
          PowHasBit(bitPosition, p);
        }
        bitsInt := Or(bitsInt, bitValue);
      }
      bitPosition := bitPosition + 1;
    }
    forall p: nat
      ensures HasBit(bitsInt, p) == HasBit(BitsOf(sequence), p)
    {
      BitsOfMembers(sequence, p);
    }
    if top < 0 {
      HasBitZero(0);
    }
    BitsEqual(bitsInt, BitsOf(sequence));
  }

  /** Decoding then encoding a combo gives it back, and encoding then
      decoding an ascending sequence of positions gives it back. */
  lemma RoundTrips(c: nat, s: seq<int>)
    ensures BitsOf(Positions(c)) == c
    ensures Increasing(s) && (forall i :: 0 <= i < |s| ==> s[i] >= 0) ==> Positions(BitsOf(s)) == s
  {
    BitsOfPositions(c);
    if Increasing(s) && (forall i :: 0 <= i < |s| ==> s[i] >= 0) {
      PositionsOfBits(s);
    }
  }

  // ---------------------------------------------------------------------
  // Counting

  /** The number of r-element combinations of the items, by the factorial
      formula; a negative r is an error and too large an r gives 0. */
  function CombinationsCount<T>(iterable: seq<T>, r: int): (count: Result<nat>)
    ensures count.Success? <==> r >= 0
    ensures count.Success? ==> count.value == Binomial(|iterable|, r)
  {
    var n := |iterable|;
    if r < 0 then Failure(NegativeCount)
    else if r > n then
      BinomialAbove(n, r);
      Success(0)
    else
      FactorialQuotient(n, r);
      Success(Factorial(n) / (Factorial(r) * Factorial(n - r)))
  }

  lemma FactorialQuotient(n: nat, r: nat)
    requires r <= n
    ensures Factorial(n) / (Factorial(r) * Factorial(n - r)) == Binomial(n, r)
  {
    BinomialFactorial(n, r);
    DivModUnique(Factorial(n), Factorial(r) * Factorial(n - r), Binomial(n, r), 0);
  }

  // ---------------------------------------------------------------------
  // Splitting a string from the right

  /** Where Python's s[:-size] ends and s[-size:] begins, for a string of
      the given length (size 0 takes the whole string as the piece). */
  function CutPoint(length: nat, size: nat): (cut: nat)
    ensures cut <= length && (length > 0 ==> cut < length)
  {
    if size == 0 || size >= length then 0 else length - size
  }

  /** The pieces of s, rightmost first, each cut off the right end. */
  function Rsplit(s: string, size: nat): seq<string>
    decreases |s|
  {
    if s == [] then [] else
      var cut := CutPoint(|s|, size);
      [s[cut..]] + Rsplit(s[..cut], size)
  }

  /** The loop that repeatedly cuts size characters off the right. */
  method RsplitSize(str: string, size: nat) returns (sections: seq<string>)
    ensures sections == Rsplit(str, size)
  {
    var remaining := str;
    sections := [];
    while remaining != []
      invariant sections + Rsplit(remaining, size) == Rsplit(str, size)
      decreases |remaining|
    {
      var cut := CutPoint(|remaining|, size);
      var section := remaining[cut..];
      remaining := remaining[..cut];
      sections := sections + [section];
    }
  }

  /** Reading the pieces last to first and joining them gives back the string. */
  lemma {:induction false} RsplitJoin(s: string, size: nat)
    ensures Flatten(Reversed(Rsplit(s, size))) == s
    decreases |s|
  {
    if s != [] {
      var cut := CutPoint(|s|, size);
      var piece, rest := s[cut..], Rsplit(s[..cut], size);
      var all := [piece] + rest;
      RsplitJoin(s[..cut], size);
      assert Rsplit(s, size) == all;
      assert all[1..] == rest;
      assert Reversed(all) == Reversed(rest) + [piece];
      FlattenAppend(Reversed(rest), piece);
      assert s[..cut] + piece == s;
    }
  }

  /** Every piece but the last has exactly size characters and the last has
      between 1 and size; with size 0 the whole string is the one piece. */
  lemma {:induction false} RsplitPieces(s: string, size: nat)
    ensures |Rsplit(s, size)| == 0 <==> s == []
    ensures size == 0 && s != [] ==> Rsplit(s, size) == [s]
    ensures size > 0 ==> forall i :: 0 <= i < |Rsplit(s, size)| - 1 ==> |Rsplit(s, size)[i]| == size
    ensures size > 0 && s != [] ==> 0 < |Rsplit(s, size)[|Rsplit(s, size)| - 1]| <= size
    decreases |s|
  {
    if s != [] {
      var cut := CutPoint(|s|, size);
      RsplitPieces(s[..cut], size);
      if cut == 0 {
        assert Rsplit(s[..cut], size) == [];
      }
    }
  }

  // ---------------------------------------------------------------------
  // Binary numerals

  function Digit(b: nat): char
  {
    if b == 0 then '0' else '1'
  }

  /** Python's '{:b}'.format(n): the binary numeral, "0" for zero. */
  function Binary(n: nat): (r: string)
    ensures |r| > 0 && (r[0] == '0' || r[0] == '1')
  {
    if n < 2 then [Digit(n)] else Binary(n / 2) + [Digit(n % 2)]
  }

  /** The value of a numeral of '0' and '1' characters. */
  function NumeralValue(s: string): nat
  {
    if s == [] then 0 else 2 * NumeralValue(s[..|s| - 1]) + (if s[|s| - 1] == '1' then 1 else 0)
  }

  /** '{:b}'.format(n) for any integer: a negative value is its magnitude's
      numeral behind a '-'. */
  function SignedBinary(n: int): (r: string)
    ensures |r| > 0 && (r[0] == '-' <==> n < 0)
  {
    if n < 0 then ['-'] + Binary(-n) else Binary(n)
  }

  /** str.zfill: pad with '0' up to width characters, on the left or, when
      the string starts with a sign, just after the sign. */
  function ZFill(s: string, width: int): (r: string)
    ensures |r| == if width > |s| then width else |s|
  {
    if width <= |s| then s
    else if |s| > 0 && (s[0] == '-' || s[0] == '+') then [s[0]] + seq(width - |s|, _ => '0') + s[1..]
    else seq(width - |s|, _ => '0') + s
  }

  /** sep.join(pieces). */
  function Join(pieces: seq<string>, sep: char): string
  {
    if |pieces| == 0 then [] else if |pieces| == 1 then pieces[0] else pieces[0] + [sep] + Join(pieces[1..], sep)
  }

  /** The string with every space removed. */
  function WithoutSpaces(s: string): string
  {
    if s == [] then [] else (if s[0] == ' ' then [] else [s[0]]) + WithoutSpaces(s[1..])
  }

  /** The binary numeral of number, zero-filled to digits characters, cut
      into groups of sections digits from the right, groups separated by
      one space. */
  function FormatBinary(number: int, digits: int, sections: nat): (r: string)
    ensures WithoutSpaces(r) == ZFill(SignedBinary(number), digits)
  {
    var binstr := ZFill(SignedBinary(number), digits);
    BinstrChars(number, digits);
    NumeralGroups(binstr, sections);
    Join(Reversed(Rsplit(binstr, sections)), ' ')
  }

  /** The zero-filled numeral holds no space. */
  lemma BinstrChars(number: int, digits: int)
    ensures var z := ZFill(SignedBinary(number), digits); forall k :: 0 <= k < |z| ==> z[k] != ' '
  {
    if number < 0 {
      var z := ZFill(Binary(-number), digits - 1);
      SignedNumeral(number, digits);
      SignedNoSpaces(z);
    } else {
      UnsignedNumeral(number, digits);
    }
  }

  /** The numeral reads back as n, and only zero is written with a leading '0'. */
  lemma {:induction false} BinaryValue(n: nat)
    ensures NumeralValue(Binary(n)) == n
    ensures Binary(n)[0] == '0' <==> n == 0
    ensures forall i :: 0 <= i < |Binary(n)| ==> Binary(n)[i] == '0' || Binary(n)[i] == '1'
  {
    if n >= 2 {
      BinaryValue(n / 2);
      var b := Binary(n);
      assert b[..|b| - 1] == Binary(n / 2);
    }
  }

  /** Leading zeros do not change a numeral's value. */
  lemma {:induction false} LeadingZeros(z: nat, s: string)
    ensures NumeralValue(seq(z, _ => '0') + s) == NumeralValue(s)
    decreases |s|
  {
    var zeros: string := seq(z, _ => '0');
    if s == [] {
      assert zeros + s == zeros;
      AllZeros(z);
    } else {
      var init := s[..|s| - 1];
      assert (zeros + s)[..|zeros + s| - 1] == zeros + init;
      LeadingZeros(z, init);
    }
  }

  lemma {:induction false} AllZeros(z: nat)
    ensures NumeralValue(seq(z, _ => '0')) == 0
  {
    if z > 0 {
      var zeros: string := seq(z, _ => '0');
      assert zeros[..z - 1] == seq(z - 1, _ => '0');
      AllZeros(z - 1);
    }
  }

  lemma {:induction false} JoinWithoutSpaces(pieces: seq<string>)
    requires forall i, j :: 0 <= i < |pieces| && 0 <= j < |pieces[i]| ==> pieces[i][j] != ' '
    ensures WithoutSpaces(Join(pieces, ' ')) == Flatten(pieces)
  {
    if |pieces| == 1 {
      NoSpaces(pieces[0]);
    } else if |pieces| > 1 {
      JoinWithoutSpaces(pieces[1..]);
      WithoutSpacesAppend(pieces[0], [' '] + Join(pieces[1..], ' '));
      NoSpaces(pieces[0]);
      assert ([' '] + Join(pieces[1..], ' '))[1..] == Join(pieces[1..], ' ');
      assert pieces[0] + [' '] + Join(pieces[1..], ' ') == pieces[0] + ([' '] + Join(pieces[1..], ' '));
    }
  }

  lemma {:induction false} WithoutSpacesAppend(a: string, b: string)
    ensures WithoutSpaces(a + b) == WithoutSpaces(a) + WithoutSpaces(b)
  {
    if a != [] {
      assert (a + b)[1..] == a[1..] + b;
      WithoutSpacesAppend(a[1..], b);
    } else {
      assert a + b == b;
    }
  }

  lemma {:induction false} NoSpaces(s: string)
    requires forall j :: 0 <= j < |s| ==> s[j] != ' '
    ensures WithoutSpaces(s) == s
  {
    if s != [] {
      NoSpaces(s[1..]);
    }
  }

  /** With the spaces taken out, the formatted number is its binary numeral
      zero-filled to at least digits characters, which reads back as the
      number; every group after the first holds exactly sections digits
      and the first holds between 1 and sections. */
  lemma FormatBinaryDigits(number: nat, digits: int, sections: nat)
    ensures var z := ZFill(Binary(number), digits);
      WithoutSpaces(FormatBinary(number, digits, sections)) == z &&
      NumeralValue(z) == number &&
      |z| == (if digits > |Binary(number)| then digits else |Binary(number)|)
    ensures var groups := Reversed(Rsplit(ZFill(Binary(number), digits), sections));
      FormatBinary(number, digits, sections) == Join(groups, ' ') &&
      (sections > 0 ==> forall i :: 1 <= i < |groups| ==> |groups[i]| == sections) &&
      (sections > 0 ==> 0 < |groups[0]| <= sections)
  {
    var z := ZFill(Binary(number), digits);
    UnsignedNumeral(number, digits);
    assert FormatBinary(number, digits, sections) == Join(Reversed(Rsplit(z, sections)), ' ');
    NumeralGroups(z, sections);
  }

  /** The zero-filled string of a non-negative number is a numeral of it. */
  lemma UnsignedNumeral(number: nat, digits: int)
    ensures var z := ZFill(Binary(number), digits);
      ZFill(SignedBinary(number), digits) == z &&
      NumeralValue(z) == number &&
      |z| == (if digits > |Binary(number)| then digits else |Binary(number)|) &&
      forall k :: 0 <= k < |z| ==> z[k] == '0' || z[k] == '1'
  {
    var b := Binary(number);
    BinaryValue(number);
    ZFillValue(b, digits);
    ZFillDigits(b, digits);
  }

  /** A negative number is written as '-' and the zero-filled numeral of its
      magnitude, the sign counting towards digits; the sign goes into the
      first group. */
  lemma FormatBinarySign(number: int, digits: int, sections: nat)
    requires number < 0
    ensures var z := ZFill(Binary(-number), digits - 1);
      WithoutSpaces(FormatBinary(number, digits, sections)) == ['-'] + z &&
      NumeralValue(z) == -number &&
      |z| == (if digits - 1 > |Binary(-number)| then digits - 1 else |Binary(-number)|)
    ensures var groups := Reversed(Rsplit(['-'] + ZFill(Binary(-number), digits - 1), sections));
      FormatBinary(number, digits, sections) == Join(groups, ' ') &&
      (sections > 0 ==> forall i :: 1 <= i < |groups| ==> |groups[i]| == sections) &&
      (sections > 0 ==> 0 < |groups[0]| <= sections)
  {
    var z := ZFill(Binary(-number), digits - 1);
    SignedNumeral(number, digits);
    assert FormatBinary(number, digits, sections) == Join(Reversed(Rsplit(['-'] + z, sections)), ' ');
    SignedNoSpaces(z);
    NumeralGroups(['-'] + z, sections);
  }

  /** The zero-filled string of a negative number: the sign, then a numeral
      of the magnitude one character shorter. */
  lemma SignedNumeral(number: int, digits: int)
    requires number < 0
    ensures var z := ZFill(Binary(-number), digits - 1);
      ZFill(SignedBinary(number), digits) == ['-'] + z &&
      NumeralValue(z) == -number &&
      |z| == (if digits - 1 > |Binary(-number)| then digits - 1 else |Binary(-number)|) &&
      forall k :: 0 <= k < |z| ==> z[k] == '0' || z[k] == '1'
  {
    var b := Binary(-number);
    BinaryValue(-number);
    ZFillValue(b, digits - 1);
    SignZFill(b, digits);
    ZFillDigits(b, digits - 1);
  }

  /** Zero-filling an unsigned numeral keeps its value. */
  lemma ZFillValue(b: string, width: int)
    requires |b| > 0 && (b[0] == '0' || b[0] == '1')
    ensures NumeralValue(ZFill(b, width)) == NumeralValue(b)
  {
    if width > |b| {
      assert ZFill(b, width) == seq(width - |b|, _ => '0') + b;
      LeadingZeros(width - |b|, b);
    }
  }

  lemma SignedNoSpaces(z: string)
    requires forall k :: 0 <= k < |z| ==> z[k] == '0' || z[k] == '1'
    ensures forall k :: 0 <= k < |['-'] + z| ==> (['-'] + z)[k] != ' '
  {
    forall k | 0 <= k < |['-'] + z|
      ensures (['-'] + z)[k] != ' '
    {
      if k > 0 {
        assert (['-'] + z)[k] == z[k - 1];
      }
    }
  }

  /** zfill after a sign pads the unsigned part to one character less. */
  lemma SignZFill(b: string, digits: int)
    requires |b| > 0 && (b[0] == '0' || b[0] == '1')
    ensures ZFill(['-'] + b, digits) == ['-'] + ZFill(b, digits - 1)
  {
    var s := ['-'] + b;
    assert s[0] == '-' && s[1..] == b;
    if digits > |s| {
      var zeros: string := seq(digits - |s|, _ => '0');
      assert ZFill(b, digits - 1) == zeros + b;
      AppendAssoc(['-'], zeros, b);
    }
  }

  /** Zero-filling a string of '0' and '1' keeps it one. */
  lemma ZFillDigits(b: string, width: int)
    requires forall k :: 0 <= k < |b| ==> b[k] == '0' || b[k] == '1'
    ensures var z := ZFill(b, width); forall k :: 0 <= k < |z| ==> z[k] == '0' || z[k] == '1'
  {
    var z := ZFill(b, width);
    if width > |b| {
      assert z == seq(width - |b|, _ => '0') + b;
      forall k | 0 <= k < |z|
        ensures z[k] == '0' || z[k] == '1'
      {
        if k >= width - |b| {
          assert z[k] == b[k - (width - |b|)];
        }
      }
    }
  }

  /** The right-to-left groups of a string without spaces, joined with
      spaces, give the string back once the spaces are taken out. */
  lemma NumeralGroups(z: string, sections: nat)
    requires forall k :: 0 <= k < |z| ==> z[k] != ' '
    ensures var groups := Reversed(Rsplit(z, sections));
      WithoutSpaces(Join(groups, ' ')) == z &&
      (sections > 0 ==> forall i :: 1 <= i < |groups| ==> |groups[i]| == sections) &&
      (sections > 0 && z != [] ==> 0 < |groups[0]| <= sections)
  {
    var groups := Reversed(Rsplit(z, sections));
    RsplitPieces(z, sections);
    RsplitJoin(z, sections);
    forall i, j | 0 <= i < |groups| && 0 <= j < |groups[i]|
      ensures groups[i][j] != ' '
    {
      GroupChars(z, sections, groups, i, j);
    }
    JoinWithoutSpaces(groups);
  }

  /** Every character of every group is a character of the numeral. */
  lemma GroupChars(z: string, size: nat, groups: seq<string>, i: nat, j: nat)
    requires forall k :: 0 <= k < |z| ==> z[k] != ' '
    requires groups == Reversed(Rsplit(z, size)) && i < |groups| && j < |groups[i]|
    ensures groups[i][j] != ' '
  {
    PiecesOfString(z, size, |groups| - 1 - i);
    assert groups[i][j] in z;
  }

  lemma {:induction false} PiecesOfString(s: string, size: nat, i: nat)
    requires i < |Rsplit(s, size)|
    ensures forall x :: x in Rsplit(s, size)[i] ==> x in s
    decreases |s|
  {
    var cut := CutPoint(|s|, size);
    if i > 0 {
      PiecesOfString(s[..cut], size, i - 1);
    }
  }

  // ---------------------------------------------------------------------
  // Drawing a ruler

  /** The characters for one position: a dot or a blank, padded to spacing. */
  function Cell(dot: bool, spacing: nat): string
    requires spacing >= 1
  {
    if dot then ['.'] + seq(spacing - 1, _ => ' ') else seq(spacing, _ => ' ')
  }

  /** The cells of positions 0 .. n - 1, left to right. */
  function DotLine(sequence: seq<int>, n: nat, spacing: nat): (line: string)
    requires spacing >= 1
    ensures |line| == n * spacing
  {
    if n == 0 then [] else DotLine(sequence, n - 1, spacing) + Cell(n - 1 in sequence, spacing)
  }

  /** The points drawn as dots on an invisible number line, spacing
      characters per position, up to the largest point. */
  method Dots(sequence: seq<int>, spacing: int) returns (r: Result<string>)
    ensures spacing < 1 ==> r == Failure(BadSpacing)
    ensures spacing >= 1 && |sequence| > 0 && Min(sequence) < 0 ==> r == Failure(NegativePoint)
    ensures r.Success? <==> spacing >= 1 && (|sequence| == 0 || Min(sequence) >= 0)
    ensures r.Success? ==> r.value == DotLine(sequence, if |sequence| == 0 then 0 else Max(sequence) + 1, spacing)
  {
    if spacing < 1 {
      return Failure(BadSpacing);
    }
    var result: string := [];
    if |sequence| > 0 {
      if Min(sequence) < 0 {
        return Failure(NegativePoint);
      }
      var pos := 0;
      var top := Max(sequence);
      while pos < top + 1
        invariant 0 <= pos <= top + 1
        invariant result == DotLine(sequence, pos, spacing)
      {
        if pos in sequence {
          result := result + (['.'] + seq(spacing - 1, _ => ' '));
        } else {
          result := result + seq(spacing, _ => ' ');
        }
        pos := pos + 1;
      }
    }
    return Success(result);
  }

  /** Position p of the line is drawn in characters p * spacing through
      (p + 1) * spacing - 1: a '.' first exactly when p is a point, and
      blanks everywhere else. */
  lemma {:induction false} DotLineCell(sequence: seq<int>, n: nat, spacing: nat, p: nat)
    requires spacing >= 1 && p < n
    ensures p * spacing + spacing <= n * spacing
    ensures DotLine(sequence, n, spacing)[p * spacing .. p * spacing + spacing] == Cell(p in sequence, spacing)
  {
    var prev := DotLine(sequence, n - 1, spacing);
    var last := Cell(n - 1 in sequence, spacing);
    var lo, m := p * spacing, (n - 1) * spacing;
    assert n * spacing == m + spacing;
    assert DotLine(sequence, n, spacing) == prev + last;
    if p == n - 1 {
      SliceRight(prev, last, lo);
    } else {
      DotLineCell(sequence, n - 1, spacing, p);
      MulLe(p + 1, n - 1, spacing);
      SliceLeft(prev, last, lo, spacing);
    }
  }

  /** The number of five-unit sections covering length units, rounded up. */
  function SectionCount(length: nat): (count: nat)
    ensures 5 * count >= length && 5 * count < length + 5
  {
    (length + 4) / 5
  }

  /** One five-unit section of tick marks: four unit ticks and a five tick,
      each after spacing - 1 blanks. */
  function Section(spacing: nat, unittick: char, fivetick: char): (s: string)
    requires spacing >= 1
  {
    var spaces := seq(spacing - 1, _ => ' ');
    (spaces + [unittick]) + (spaces + [unittick]) + (spaces + [unittick]) + (spaces + [unittick]) + spaces + [fivetick]
  }

  /** s repeated count times. */
  function Repeat(s: string, count: nat): (r: string)
    ensures |r| == count * |s|
  {
    if count == 0 then [] else Repeat(s, count - 1) + s
  }

  /** A line of tick marks for a ruler of length units, rounded up to a
      multiple of five: a five tick at 0 and then one section per five units. */
  function RulerTicks(length: int, spacing: int, unittick: char, fivetick: char): (r: Result<string>)
    ensures r.Success? <==> length >= 0 && spacing >= 1
    ensures length < 0 ==> r == Failure(NegativeLength)
    ensures length >= 0 && spacing < 1 ==> r == Failure(BadSpacing)
  {
    if length < 0 then Failure(NegativeLength)
    else if spacing < 1 then Failure(BadSpacing)
    else Success([fivetick] + Repeat(Section(spacing, unittick, fivetick), SectionCount(length)))
  }

  /** Unit u of the ruler (counting from 0) ends at character (u + 1) * spacing
      with a five tick when u + 1 is a multiple of 5 and a unit tick
      otherwise, after spacing - 1 blanks; the ruler covers the length. */
  lemma RulerTicksUnit(length: nat, spacing: nat, unittick: char, fivetick: char, q: nat, j: nat)
    requires spacing >= 1 && q < SectionCount(length) && j < 5
    ensures var r := RulerTicks(length, spacing, unittick, fivetick).value;
      |r| == 1 + SectionCount(length) * (5 * spacing) &&
      r[0] == fivetick &&
      1 + (5 * q + j + 1) * spacing <= |r| &&
      r[1 + (5 * q + j) * spacing .. 1 + (5 * q + j + 1) * spacing] ==
        seq(spacing - 1, _ => ' ') + [if j == 4 then fivetick else unittick]
  {
    var count := SectionCount(length);
    var section := Section(spacing, unittick, fivetick);
    var body := Repeat(section, count);
    var r := [fivetick] + body;
    assert RulerTicks(length, spacing, unittick, fivetick).value == r;
    var lo, at := UnitOffsets(spacing, q, j);
    assert |section| == 5 * spacing;
    RepeatPart(section, count, q);
    SectionUnit(spacing, unittick, fivetick, j);
    UnitSlice(fivetick, body, section, lo, at, j * spacing, spacing);
  }

  /** A slice of a section inside the repeated body, read past the leading
      five tick. */
  lemma UnitSlice(x: char, body: string, section: string, lo: nat, at: nat, i: nat, n: nat)
    requires lo + |section| <= |body| && body[lo .. lo + |section|] == section
    requires at == lo + i && i + n <= |section|
    ensures ([x] + body)[1 + at .. 1 + at + n] == section[i .. i + n]
  {
    var s := [x] + body;
    var t, u := s[1 + at .. 1 + at + n], section[i .. i + n];
    forall k | 0 <= k < n
      ensures t[k] == u[k]
    {
      assert s[1 + at + k] == body[lo .. lo + |section|][i + k];
    }
  }

  /** Unit 5q + j begins j units into section q. */
  lemma UnitOffsets(spacing: nat, q: nat, j: nat) returns (lo: nat, at: nat)
    requires j < 5
    ensures lo == q * (5 * spacing) && at == lo + j * spacing
    ensures at == (5 * q + j) * spacing && at + spacing == (5 * q + j + 1) * spacing
    ensures j * spacing + spacing <= 5 * spacing
  {
    lo := q * (5 * spacing);
    at := lo + j * spacing;
    MulLe(j + 1, 5, spacing);
  }

  lemma {:induction false} RepeatPart(s: string, count: nat, q: nat)
    requires q < count
    ensures q * |s| + |s| <= count * |s|
    ensures Repeat(s, count)[q * |s| .. q * |s| + |s|] == s
  {
    if q < count - 1 {
      RepeatPart(s, count - 1, q);
      MulLe(q + 1, count - 1, |s|);
      assert Repeat(s, count)[..(count - 1) * |s|] == Repeat(s, count - 1);
    }
  }

  lemma SectionUnit(spacing: nat, unittick: char, fivetick: char, j: nat)
    requires spacing >= 1 && j < 5
    ensures j * spacing + spacing <= 5 * spacing
    ensures Section(spacing, unittick, fivetick)[j * spacing .. j * spacing + spacing] ==
      seq(spacing - 1, _ => ' ') + [if j == 4 then fivetick else unittick]
  {
    var spaces := seq(spacing - 1, _ => ' ');
    var unit := spaces + [unittick];
    var s := Section(spacing, unittick, fivetick);
    assert s == unit + unit + unit + unit + (spaces + [fivetick]);
    MulLe(j + 1, 5, spacing);
    FifthOf(unit, spaces + [fivetick], j);
  }

  /** Part j of four copies of u followed by l, all of one width. */
  lemma FifthOf(u: string, l: string, j: nat)
    requires |u| == |l| && j < 5
    ensures j * |u| + |u| <= 5 * |u|
    ensures (u + u + u + u + l)[j * |u| .. j * |u| + |u|] == if j == 4 then l else u
  {
    var s, w := u + u + u + u + l, |u|;
    if j == 0 {
      assert s[..w] == u;
    } else if j == 1 {
      assert s[w .. 2 * w] == u;
    } else if j == 2 {
      assert s[2 * w .. 3 * w] == u;
    } else if j == 3 {
      assert s[3 * w .. 4 * w] == u;
    } else {
      assert s[4 * w ..] == l;
    }
  }

  // ---------------------------------------------------------------------
  // Chunks

  /** Take up to chunksize items at a time from the input until a take
      comes back empty. */
  method Chunkinate<T>(iterable: seq<T>, chunksize: int) returns (chunks: seq<seq<T>>)
    requires chunksize > 0
    ensures Flatten(chunks) == iterable
    ensures forall i :: 0 <= i < |chunks| ==> 0 < |chunks[i]| <= chunksize
    ensures forall i :: 0 <= i < |chunks| - 1 ==> |chunks[i]| == chunksize
  {
    chunks := [];
    var next := 0;
    var chunk := iterable[next .. if next + chunksize < |iterable| then next + chunksize else |iterable|];
    next := next + |chunk|;
    while chunk != []
      invariant 0 <= next <= |iterable| && |chunk| <= chunksize
      invariant Flatten(chunks) + chunk == iterable[..next]
      invariant |chunk| < chunksize ==> next == |iterable|
      invariant forall i :: 0 <= i < |chunks| ==> 0 < |chunks[i]| <= chunksize
      invariant forall i :: 0 <= i < |chunks| - 1 ==> |chunks[i]| == chunksize
      invariant chunk != [] && |chunks| > 0 ==> |chunks[|chunks| - 1]| == chunksize
      decreases |iterable| - next + |chunk|
    {
      FlattenAppend(chunks, chunk);
      chunks := chunks + [chunk];
      assert Flatten(chunks) == iterable[..next];
      var end := if next + chunksize < |iterable| then next + chunksize else |iterable|;
      chunk := iterable[next..end];
      assert iterable[..end] == iterable[..next] + chunk;
      next := end;
    }
    assert iterable[..next] == iterable;
  }
}
