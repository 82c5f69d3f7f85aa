/** Printing numbers in a given base, and the memory report that prints them. */
module Radix {

  /** unit_32: 32-bit unsigned integers. */
  const WORD: nat := 0x1_0000_0000

  type Word = x: int | 0 <= x < 0x1_0000_0000

  predicate Base(unit: int) { 2 <= unit <= 36 }

  function Digit(v: nat): (c: char)
    requires v < 36
  {
    if v < 10 then '0' + v as char else 'a' + (v - 10) as char
  }

  /** The value of a digit: the reader's side. */
  function Value(c: char): (v: nat) {
    if '0' <= c <= '9' then (c - '0') as nat else if 'a' <= c <= 'z' then 10 + (c - 'a') as nat else 36
  }

  predicate IsDigit(c: char, unit: nat) { Value(c) < unit }

  function Parse(s: string, unit: nat): nat {
    if s == [] then 0 else Parse(s[..|s| - 1], unit) * unit + Value(s[|s| - 1])
  }

  /** A numeral that a reader accepts: digits of the base, no leading zero unless it is "0". */
  predicate Numeral(s: string, unit: nat) {
    s != [] && (forall i :: 0 <= i < |s| ==> IsDigit(s[i], unit)) && (|s| > 1 ==> s[0] != '0')
  }

  lemma DivFacts(x: nat, u: nat)
    requires u >= 2
    ensures x / u * u + x % u == x && x % u < u
    ensures x / u == 0 <==> x < u
    ensures x > 0 ==> x / u < x
  {
  }

  function Digits(data: nat, unit: nat): (s: string)
    requires Base(unit)
  {
    if data < unit then [Digit(data)]
    else
      DivFacts(data, unit);
      Digits(data / unit, unit) + [Digit(data % unit)]
  }

  function Power(unit: nat, n: nat): nat {
    if n == 0 then 1 else unit * Power(unit, n - 1)
  }

  lemma DigitValue(v: nat)
    requires v < 36
    ensures Value(Digit(v)) == v && Digit(v) != '\0' && (Digit(v) == '0' <==> v == 0)
  {
  }

  /** The digits are the decimal ones and then the small letters. */
  lemma DigitChars(v: nat)
    requires v < 36
    ensures Digit(v) == "0123456789abcdefghijklmnopqrstuvwxyz"[v]
  {
    var text := "0123456789abcdefghijklmnopqrstuvwxyz";
    assert forall k :: 0 <= k < 10 ==> text[k] == '0' + k as char;
    assert forall k :: 10 <= k < 36 ==> text[k] == 'a' + (k - 10) as char;
  }

  lemma ValueDigit(c: char)
    requires Value(c) < 36
    ensures Digit(Value(c)) == c
  {
  }

  lemma {:induction false} DigitsNumeral(data: nat, unit: nat)
    requires Base(unit)
    ensures Numeral(Digits(data, unit), unit)
    ensures Digits(data, unit)[0] == '0' <==> data == 0
  {
    hide Digit, Value;
    DivFacts(data, unit);
    if data < unit {
      DigitValue(data);
    } else {
      DigitsNumeral(data / unit, unit);
      DigitValue(data % unit);
    }
  }

  /** The printed text is a numeral for the value: reading it in the same base gives the value back. */
  lemma {:induction false} ParseDigits(data: nat, unit: nat)
    requires Base(unit)
    ensures Numeral(Digits(data, unit), unit) && Parse(Digits(data, unit), unit) == data
    ensures Digits(data, unit)[0] == '0' <==> data == 0
  {
    hide Parse, Digit, Value, Numeral;
    DigitsNumeral(data, unit);
    DivFacts(data, unit);
    if data < unit {
      DigitValue(data);
      ParseAppend([], Digit(data), unit);
      ParseNone(unit);
      assert [] + [Digit(data)] == [Digit(data)];
    } else {
      ParseDigits(data / unit, unit);
      DigitValue(data % unit);
      ParseAppend(Digits(data / unit, unit), Digit(data % unit), unit);
    }
  }

  lemma ParseNone(unit: nat)
    ensures Parse([], unit) == 0
  {
  }

  lemma ParseAppend(s: string, c: char, unit: nat)
    ensures Parse(s + [c], unit) == Parse(s, unit) * unit + Value(c)
  {
    assert (s + [c])[..|s + [c]| - 1] == s;
  }

  lemma {:induction false} ParsePositive(s: string, unit: nat)
    requires Base(unit) && Numeral(s, unit) && (s[0] != '0')
    ensures Parse(s, unit) > 0
  {
    hide Parse, Value;
    var front := s[..|s| - 1];
    assert s == front + [s[|s| - 1]];
    ParseAppend(front, s[|s| - 1], unit);
    if |s| == 1 {
      ParseNone(unit);
      DigitPositive(s[0]);
    } else {
      ParsePositive(front, unit);
      MulMonotone(1, Parse(front, unit), 1, unit);
    }
  }

  lemma DigitPositive(c: char)
    requires c != '0'
    ensures Value(c) > 0
  {
  }

  /** It is the only numeral for that value. */
  lemma {:induction false} NumeralUnique(s: string, unit: nat)
    requires Base(unit) && Numeral(s, unit)
    ensures s == Digits(Parse(s, unit), unit)
  {
    var v, last := Parse(s, unit), s[|s| - 1];
    ValueDigit(last);
    if |s| == 1 {
      assert s[..0] == [];
    } else {
      var front := s[..|s| - 1];
      assert s == front + [last];
      ParsePositive(front, unit);
      NumeralUnique(front, unit);
      Quotient(Parse(front, unit), unit, Value(last));
    }
  }

  lemma Quotient(q: nat, unit: nat, r: nat)
    requires q > 0 && r < unit && unit >= 2
    ensures (q * unit + r) / unit == q && (q * unit + r) % unit == r && q * unit + r >= unit
  {
    var x := q * unit + r;
    DivFacts(x, unit);
    MulMonotone(1, q, unit, unit);
    var d := x / unit - q;
    assert d * unit == x / unit * unit - q * unit;
    BigMultiple(d, unit);
  }

  lemma BigMultiple(d: int, u: nat)
    ensures d != 0 ==> d * u >= u || d * u + u <= 0
  {
    if d > 0 {
      MulMonotone(1, d, u, u);
    } else if d < 0 {
      MulMonotone(1, -d, u, u);
    }
  }

  /** A value takes at most n digits exactly when it is below the n-th power of the base. */
  lemma {:induction false} LengthIff(data: nat, unit: nat, n: nat)
    requires Base(unit) && n >= 1
    ensures |Digits(data, unit)| <= n <==> data < Power(unit, n)
  {
    if n == 1 {
      assert Power(unit, 1) == unit;
    } else if data < unit {
      PowerGrows(unit, n);
    } else {
      LengthIff(data / unit, unit, n - 1);
      BelowIff(data, unit, Power(unit, n - 1));
    }
  }

  lemma {:induction false} PowerGrows(unit: nat, n: nat)
    requires unit >= 1 && n >= 1
    ensures Power(unit, n) >= unit
  {
    if n > 1 {
      PowerGrows(unit, n - 1);
      assert unit * Power(unit, n - 1) >= unit * 1;
    }
  }

  lemma BelowIff(x: nat, u: nat, p: nat)
    requires u > 0
    ensures x / u < p <==> x < u * p
  {
    assert x == x / u * u + x % u;
    if x / u < p {
      assert (x / u + 1) * u <= p * u;
    } else {
      assert p * u <= x / u * u;
    }
  }

  lemma {:induction false} PowerMonotone(u: nat, v: nat, n: nat)
    requires u <= v
    ensures Power(u, n) <= Power(v, n)
  {
    if n > 0 {
      PowerMonotone(u, v, n - 1);
      MulMonotone(u, v, Power(u, n - 1), Power(v, n - 1));
    }
  }

  lemma MulMonotone(a: nat, b: nat, c: nat, d: nat)
    requires a <= b && c <= d
    ensures a * c <= b * d
  {
    assert a * c <= b * c;
    assert b * c <= b * d;
  }

  /** No 32-bit value needs more than the 32 places of revstr. */
  lemma FitsScratch(data: nat, unit: nat)
    requires data < WORD && Base(unit)
    ensures |Digits(data, unit)| <= 32
  {
    PowerMonotone(2, unit, 32);
    PowersOfTwo();
    LengthIff(data, unit, 32);
  }

  lemma PowersOfTwo()
    ensures Power(2, 32) == WORD
  {
    assert Power(2, 8) == 256;
    assert Power(2, 16) == 65536;
    assert Power(2, 24) == 0x100_0000;
  }

  /** In base 16 a 32-bit value takes at most 8 digits, and in base 10 a number of megabytes at most 4. */
  lemma FitsMemstr(data: nat)
    ensures data < WORD ==> |Digits(data, 16)| + 1 <= 9
    ensures data <= 4096 ==> |Digits(data, 10)| + 1 <= 5
  {
    assert Power(16, 4) == 65536;
    assert Power(16, 8) == WORD;
    assert Power(10, 4) == 10000;
    LengthIff(data, 16, 8);
    LengthIff(data, 10, 4);
  }

  /** What toString must leave: the numeral and its terminator, and no other change. */
  ghost predicate Written(before: seq<char>, after: seq<char>, s: string) {
    && |after| == |before| && |s| < |before|
    && after[..|s|] == s && after[|s|] == '\0' && after[|s| + 1..] == before[|s| + 1..]
  }

  /** One division takes the last digit off. */
  lemma LastDigit(rest: nat, unit: nat)
    requires Base(unit)
    ensures var s := Digits(rest, unit);
            && |s| >= 1 && s[|s| - 1] == Digit(rest % unit)
            && (rest / unit == 0 <==> |s| == 1)
            && (rest / unit != 0 ==> Digits(rest / unit, unit) == s[..|s| - 1])
  {
    DivFacts(rest, unit);
    if rest < unit {
      assert rest % unit == rest;
    } else {
      ParseDigits(rest / unit, unit);
    }
  }

  /** The dividing loop: the digits, least significant first. */
  method Divide(revstr: array<char>, data: Word, unit: nat) returns (index: nat)
    requires Base(unit) && data != 0 && revstr.Length == 32
    modifies revstr
    ensures index == |Digits(data, unit)| <= 32
    ensures forall j :: 0 <= j < index ==> revstr[j] == Digits(data, unit)[index - 1 - j]
  {
    hide Digits, Power;
    index := 0;
    var rest: nat := data;
    ghost var whole := Digits(data, unit);
    FitsScratch(data, unit);
    assert whole[..|whole|] == whole;
    while rest != 0
      invariant index <= |whole| <= 32
      invariant rest != 0 ==> Digits(rest, unit) == whole[..|whole| - index]
      invariant rest == 0 ==> index == |whole|
      invariant forall j :: 0 <= j < index ==> revstr[j] == whole[|whole| - 1 - j]
      decreases rest
    {
      LastDigit(rest, unit);
      DivFacts(rest, unit);
      var temp := rest % unit;
      rest := rest / unit;
      if unit == 10 {
        revstr[index] := '0' + temp as char;
      } else if temp < 10 {
        revstr[index] := '0' + temp as char;
      } else {
        revstr[index] := 'a' + (temp - 10) as char;
      }
      index := index + 1;
    }
  }

  /** The reversing loop and the terminator. */
  method Reverse(str: array<char>, revstr: array<char>, index: nat, ghost s: string)
    requires str != revstr && index == |s| <= revstr.Length && index < str.Length
    requires forall j :: 0 <= j < index ==> revstr[j] == s[index - 1 - j]
    modifies str
    ensures Written(old(str[..]), str[..], s)
  {
    var i := 0;
    while i < index
      invariant 0 <= i <= index
      invariant forall j :: 0 <= j < i ==> str[j] == s[j]
      invariant forall j :: index < j < str.Length ==> str[j] == old(str[j])
    {
      str[i] := revstr[index - i - 1];
      i := i + 1;
    }
    str[index] := '\0';
    assert str[..|s|] == s;
  }

  /** toString, for a buffer with room for the digits and the terminator. */
  method ToString(str: array<char>, data: Word, unit: nat)
    requires Base(unit) && |Digits(data, unit)| < str.Length
    modifies str
    ensures Written(old(str[..]), str[..], Digits(data, unit))
  {
    if data == 0 {
      str[0] := '0';
      str[1] := '\0';
      return;
    }
    var revstr := new char[32];
    var index := Divide(revstr, data, unit);
    Reverse(str, revstr, index, Digits(data, unit));
  }

  /** strlen and the loop of printStr: the characters before the first terminator. */
  method PrintStr(str: array<char>) returns (text: string)
    requires '\0' in str[..]
    ensures |text| < str.Length && text == str[..|text|] && '\0' !in text && str[|text|] == '\0'
  {
    var count := 0;
    while str[count] != '\0'
      invariant 0 <= count < str.Length
      invariant '\0' !in str[..count]
      decreases str.Length - count
    {
      assert str[..count + 1] == str[..count] + [str[count]];
      count := count + 1;
    }
    text := [];
    var i := 0;
    while i < count
      invariant 0 <= i <= count
      invariant text == str[..i]
    {
      text := text + [str[i]];
      i := i + 1;
    }
  }

  /** A call of toString followed by printStr shows exactly the numeral. */
  method Show(str: array<char>, data: Word, unit: nat) returns (text: string)
    requires Base(unit) && |Digits(data, unit)| < str.Length
    modifies str
    ensures text == Digits(data, unit)
  {
    hide Digits;
    ToString(str, data, unit);
    ghost var s := Digits(data, unit);
    assert str[..][|s|] == '\0';
    text := PrintStr(str);
    ParseDigits(data, unit);
    assert forall i :: 0 <= i < |s| ==> str[i] == str[..|s|][i] == s[i] && str[i] != '\0';
  }

  /** An entry of the memory map: its type, and both words of its base and of its length. */
  datatype Entry = Entry(kind: Word, base: Word, baseHigh: Word, length: Word, lengthHigh: Word)
  {
    function Base(): nat { baseHigh * WORD + base }

    function Length(): nat { lengthHigh * WORD + length }
  }

  /** The available memory that the map lists. */
  function Available(entries: seq<Entry>): nat {
    if entries == [] then 0
    else
      var e := entries[|entries| - 1];
      Available(entries[..|entries| - 1]) + if e.kind == 1 then e.Length() else 0
  }

  /** What init adds up: the low words only. */
  function LowSum(entries: seq<Entry>): nat {
    if entries == [] then 0
    else
      var e := entries[|entries| - 1];
      LowSum(entries[..|entries| - 1]) + if e.kind == 1 then e.length else 0
  }

  /** What init prints for an entry, also from the low words. */
  function Line(e: Entry): string {
    "Address Range[" + Digits(e.base, 16) + ":" + Digits((e.base + e.length) % WORD, 16) + "] State: "
    + if e.kind == 1 then "available" else "reserved"
  }

  /** The number of megabytes that init reports, computed in 32 bits. */
  function Reported(entries: seq<Entry>): (mb: nat)
    ensures 1 <= mb <= 4096
  {
    LowSum(entries) % WORD / 0x10_0000 + 1
  }

  /** The high words that are left out of the sum account for whole multiples of 4 GB. */
  lemma {:induction false} HighWords(entries: seq<Entry>) returns (high: nat)
    ensures Available(entries) == LowSum(entries) + high * WORD
  {
    if entries == [] {
      high := 0;
    } else {
      var e := entries[|entries| - 1];
      high := HighWords(entries[..|entries| - 1]);
      high := high + if e.kind == 1 then e.lengthHigh else 0;
    }
  }

  lemma WrapsAway(low: nat, high: nat)
    ensures (low + high * WORD) % WORD == low % WORD
  {
    DivFacts(low, WORD);
  }

  /**
   * The report is the megabytes of available memory, one more for the rest, exactly when less than 4 GB is
   * available; beyond that the sum wraps and high words are not looked at.
   */
  lemma {:induction false} ReportedRightIff(entries: seq<Entry>)
    ensures Reported(entries) == Available(entries) % WORD / 0x10_0000 + 1
    ensures Reported(entries) == Available(entries) / 0x10_0000 + 1 <==> Available(entries) < WORD
  {
    var high := HighWords(entries);
    WrapsAway(LowSum(entries), high);
    if high == 0 && LowSum(entries) < WORD {
      assert LowSum(entries) % WORD == LowSum(entries);
    }
  }

  /** One entry of exactly 4 GB is reported as one megabyte. */
  lemma FourGigabytesReported()
    ensures var entries := [Entry(1, 0, 0, 0, 1)];
            Available(entries) == 0x1_0000_0000 && Reported(entries) == 1
  {
    var e := Entry(1, 0, 0, 0, 1);
    assert [e][..0] == [];
    assert Available([e]) == Available([]) + e.Length();
    assert LowSum([e]) == LowSum([]) + e.length;
  }

  /** The text before the first c. */
  function Before(s: string, c: char): string {
    if s == "" || s[0] == c then "" else [s[0]] + Before(s[1..], c)
  }

  /** The text behind the first c. */
  function Behind(s: string, c: char): string {
    if s == "" then "" else if s[0] == c then s[1..] else Behind(s[1..], c)
  }

  /** What a reader of a line takes from it. */
  datatype Shown = Shown(base: nat, end: nat, state: string)

  /** The number between '[' and ':', the number between ':' and ']', and the text after that. */
  function ReadLine(line: string): Shown {
    var fromBase := Behind(line, '[');
    var fromEnd := Behind(fromBase, ':');
    Shown(Parse(Before(fromBase, ':'), 16), Parse(Before(fromEnd, ']'), 16), Behind(fromEnd, ']'))
  }

  lemma {:induction false} Cut(s: string, c: char, t: string)
    requires c !in s
    ensures Before(s + [c] + t, c) == s && Behind(s + [c] + t, c) == t
  {
    if s == "" {
      assert [] + [c] + t == [c] + t;
    } else {
      Cut(s[1..], c, t);
      assert (s + [c] + t)[1..] == s[1..] + [c] + t;
    }
  }

  lemma NoBrackets(data: nat)
    ensures ':' !in Digits(data, 16) && ']' !in Digits(data, 16)
  {
    hide Digits;
    ParseDigits(data, 16);
    var s := Digits(data, 16);
    assert forall i :: 0 <= i < |s| ==> IsDigit(s[i], 16);
  }

  lemma {:induction false} ReadParts(head: string, base: string, end: string, state: string)
    requires '[' !in head && ':' !in base && ']' !in end
    ensures ReadLine(head + ['['] + (base + [':'] + (end + [']'] + state))) == Shown(Parse(base, 16), Parse(end, 16), state)
  {
    hide Parse, Before, Behind;
    Cut(head, '[', base + [':'] + (end + [']'] + state));
    Cut(base, ':', end + [']'] + state);
    Cut(end, ']', state);
  }

  lemma LineParts(head: string, base: string, end: string, state: string)
    ensures (head + "[") + base + ":" + end + ("]" + state) == head + ['['] + (base + [':'] + (end + [']'] + state))
  {
    assert "[" == ['['] && ":" == [':'] && "]" == [']'];
  }

  /** What a reader should take from an entry's line: the low words of its base and end, and its state. */
  function Reads(e: Entry): Shown {
    Shown(e.base, (e.base + e.length) % WORD, if e.kind == 1 then " State: available" else " State: reserved")
  }

  lemma LineReads(e: Entry)
    ensures ReadLine(Line(e)) == Reads(e)
  {
    hide Digits, Parse, ReadLine;
    var base, end := Digits(e.base, 16), Digits((e.base + e.length) % WORD, 16);
    var state := if e.kind == 1 then " State: available" else " State: reserved";
    NoBrackets(e.base);
    NoBrackets((e.base + e.length) % WORD);
    ParseDigits(e.base, 16);
    ParseDigits((e.base + e.length) % WORD, 16);
    LineParts("Address Range", base, end, state);
    LineText(base, end, e.kind == 1);
    ReadParts("Address Range", base, end, state);
  }

  lemma LineText(base: string, end: string, available: bool)
    ensures "Address Range[" + base + ":" + end + "] State: " + (if available then "available" else "reserved")
            == ("Address Range" + "[") + base + ":" + end + ("]" + if available then " State: available" else " State: reserved")
  {
    assert "Address Range[" == "Address Range" + "[";
    assert "] State: " + "available" == "]" + " State: available" && "] State: " + "reserved" == "]" + " State: reserved";
  }

  /** The two numbers that are read from a line are the entry's base and end exactly when these fit in 32 bits; it says
      "available" exactly for type 1. */
  lemma LineRightIff(e: Entry)
    ensures var r := ReadLine(Line(e));
            && (r.base == e.Base() <==> e.Base() < WORD)
            && (r.end == e.Base() + e.Length() <==> e.Base() + e.Length() < WORD)
            && (r.state == " State: available" <==> e.kind == 1) && (r.state == " State: reserved" <==> e.kind != 1)
  {
    hide ReadLine, Line;
    LineReads(e);
    var high := e.baseHigh + e.lengthHigh;
    assert e.Base() + e.Length() == e.base + e.length + high * WORD;
    assert |" State: available"| != |" State: reserved"|;
  }

  /** The printing part of the loop's body. */
  method ShowEntry(tmp: array<char>, memstr: array<char>, e: Entry) returns (line: string)
    requires tmp.Length == 1000 && memstr.Length == 10
    modifies tmp, memstr
    ensures line == Line(e)
    ensures ReadLine(line) == Reads(e)
  {
    hide Digits, Power, ReadLine;
    LineReads(e);
    FitsMemstr(e.base);
    var base := Show(tmp, e.base, 16);
    var endAddr: Word := (e.base + e.length) % WORD;
    FitsMemstr(endAddr);
    var end := Show(memstr, endAddr, 16);
    line := "Address Range[" + base + ":" + end + "] State: " + if e.kind == 1 then "available" else "reserved";
  }

  /** init: one line for each entry of the map, and the size, through the two static buffers. */
  method Init(entries: seq<Entry>) returns (lines: seq<string>, size: string)
    ensures |lines| == |entries|
    ensures forall i :: 0 <= i < |entries| ==>
              lines[i] == Line(entries[i]) && ReadLine(lines[i]) == Reads(entries[i])
    ensures size == "MemOS: Welcome MemOS_2 System memory is: " + Digits(Reported(entries), 10) + "MB"
    ensures Parse(Digits(Reported(entries), 10), 10) == Reported(entries)
  {
    hide Digits, LowSum, Power, Parse, Line, ReadLine, Reads;
    var memstr, tmp := new char[10], new char[1000];
    var memsz: Word := 0;
    lines := [];
    var i := 0;
    assert LowSum([]) == 0 by { NoneListed(); }
    while i < |entries|
      invariant 0 <= i <= |entries| && |lines| == i
      invariant memsz == LowSum(entries[..i]) % WORD
      invariant forall j :: 0 <= j < i ==>
                  lines[j] == Line(entries[j]) && ReadLine(lines[j]) == Reads(entries[j])
    {
      OneMore(entries, i);
      if entries[i].kind == 1 {
        memsz := (memsz + entries[i].length) % WORD;
      }
      var line := ShowEntry(tmp, memstr, entries[i]);
      lines := lines + [line];
      i := i + 1;
    }
    assert entries[..|entries|] == entries;
    memsz := memsz / 0x10_0000 + 1;
    FitsMemstr(memsz);
    ParseDigits(memsz, 10);
    var text := Show(memstr, memsz, 10);
    size := "MemOS: Welcome MemOS_2 System memory is: " + text + "MB";
  }

  lemma NoneListed()
    ensures LowSum([]) == 0
  {
  }

  lemma OneMore(entries: seq<Entry>, i: nat)
    requires i < |entries|
    ensures LowSum(entries[..i + 1]) == LowSum(entries[..i]) + if entries[i].kind == 1 then entries[i].length else 0
  {
    assert entries[..i + 1][..i] == entries[..i];
  }
}
