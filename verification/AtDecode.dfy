// Reading back the AT commands that carry reports: what a module that parses them finds in each field.
module AtDecode {
  import opened Clock
  import opened AtCommands

  // ---- Numbers --------------------------------------------------------------------------------------

  // The value of a digit, in base 16 or 10.
  function DigitValue(c: char): int {
    if '0' <= c <= '9' then c as int - '0' as int
    else if 'a' <= c <= 'f' then c as int - 'a' as int + 10
    else -1
  }

  // The number a string of digits stands for.
  function Value(s: string, base: nat): int {
    if s == [] then 0 else base * Value(s[..|s| - 1], base) + DigitValue(s[|s| - 1])
  }

  function SignedValue(s: string): int {
    if s != [] && s[0] == '-' then -Value(s[1..], 10) else Value(s, 10)
  }

  lemma DigitsAre(n: nat)
    requires n < 16
    ensures DigitValue(DIGITS[n]) == n && DIGITS[n] != '-' && DIGITS[n] != ','
  {
  }

  lemma ValueAppend(s: string, c: char, base: nat)
    ensures Value(s + [c], base) == base * Value(s, base) + DigitValue(c)
  {
    assert (s + [c])[..|s|] == s;
  }

  lemma Hex2Value(n: u8)
    ensures Value(Hex2(n), 16) == n
  {
    var hi, lo := DIGITS[n / 16], DIGITS[n % 16];
    DigitsAre(n / 16);
    DigitsAre(n % 16);
    ValueAppend([], hi, 16);
    ValueAppend([hi], lo, 16);
    assert [] + [hi] == [hi] && [hi] + [lo] == Hex2(n);
  }

  lemma Hex4Value(n: u16)
    ensures Value(Hex4(n), 16) == n
  {
    var h: u8, l: u8 := n / 256, n % 256;
    var s := Hex2(h);
    var a, b := DIGITS[l / 16], DIGITS[l % 16];
    Hex2Value(h);
    DigitsAre(l / 16);
    DigitsAre(l % 16);
    ValueAppend(s, a, 16);
    ValueAppend(s + [a], b, 16);
    assert s + [a] + [b] == Hex4(n);
  }

  lemma {:induction false} DigitsValue(n: nat)
    ensures Value(Digits(n), 10) == n
    ensures forall i :: 0 <= i < |Digits(n)| ==> Digits(n)[i] != '-' && Digits(n)[i] != ','
  {
    if n < 10 {
      DigitsAre(n);
      assert [] + [DIGITS[n]] == Digits(n);
      ValueAppend([], DIGITS[n], 10);
    } else {
      DigitsValue(n / 10);
      DigitsAre(n % 10);
      ValueAppend(Digits(n / 10), DIGITS[n % 10], 10);
    }
  }

  lemma DecimalValue(n: i8)
    ensures SignedValue(Decimal(n)) == n
    ensures forall i :: 0 <= i < |Decimal(n)| ==> Decimal(n)[i] != ','
  {
    var m: int := n;
    if m < 0 {
      DigitsValue(-m);
      assert Decimal(n)[1..] == Digits(-m);
    } else {
      DigitsValue(m);
    }
  }

  // ---- Fields ---------------------------------------------------------------------------------------

  // The fields between the commas, as numbers.
  function Fields(s: string): (f: seq<int>)
    ensures f != []
  {
    FieldsFrom(s, 0)
  }

  // The same, looking for the next comma from position n on.
  function FieldsFrom(s: string, n: nat): (f: seq<int>)
    requires n <= |s|
    ensures f != []
    decreases |s|, |s| - n
  {
    if n == |s| then [SignedValue(s)]
    else if s[n] == ',' then [SignedValue(s[..n])] + FieldsFrom(s[n + 1..], 0)
    else FieldsFrom(s, n + 1)
  }

  lemma {:induction false} FirstField(a: string, rest: string, n: nat)
    requires n <= |a| && forall i :: 0 <= i < |a| ==> a[i] != ','
    ensures FieldsFrom(a + "," + rest, n) == [SignedValue(a)] + Fields(rest)
    decreases |a| - n
  {
    var s := a + "," + rest;
    if n == |a| {
      assert s[n] == ',' && s[..n] == a && s[n + 1..] == rest;
    } else {
      assert s[n] == a[n];
      FirstField(a, rest, n + 1);
    }
  }

  lemma {:induction false} OnlyField(a: string, n: nat)
    requires n <= |a| && forall i :: 0 <= i < |a| ==> a[i] != ','
    ensures FieldsFrom(a, n) == [SignedValue(a)]
    decreases |a| - n
  {
    if n < |a| {
      OnlyField(a, n + 1);
    }
  }

  // ---- Commands -------------------------------------------------------------------------------------

  // A command as text.
  function Characters(b: seq<u8>): (s: string)
    ensures |s| == |b|
  {
    seq(|b|, i requires 0 <= i < |b| => (b[i] as int) as char)
  }

  predicate Plain(s: string) {
    forall i :: 0 <= i < |s| ==> (s[i] as int) < 256
  }

  lemma CharactersOf(s: string)
    requires Plain(s)
    ensures Characters(Ascii(s)) == s
  {
  }

  lemma DigitsPlain()
    ensures forall n :: 0 <= n < 16 ==> (DIGITS[n] as int) < 256
  {
  }

  lemma {:induction false} NumbersPlain(n: nat)
    ensures Plain(Digits(n))
  {
    DigitsPlain();
    if n >= 10 {
      NumbersPlain(n / 10);
    }
  }

  lemma DecimalPlain(n: i8)
    ensures Plain(Decimal(n))
  {
    var m: int := n;
    NumbersPlain(if m < 0 then -m else m);
  }

  // The first command of a mouse report says the two motions, then the scroll and the pan, each with its sign.
  lemma MotionSaid(x: i8, y: i8, scroll: i8, pan: i8, buttons: u8)
    ensures var s := Characters(Text(MouseMove(x, y, scroll, pan, buttons), 0));
      |s| > 19 && s[..19] == "AT+BLEHIDMOUSEMOVE=" && Fields(s[19..]) == [x, y, scroll, pan]
  {
    hide SignedValue, Decimal, FieldsFrom;
    var head := "AT+BLEHIDMOUSEMOVE=";
    var a, b, c, d := Decimal(x), Decimal(y), Decimal(scroll), Decimal(pan);
    DecimalValue(x);
    DecimalValue(y);
    DecimalValue(scroll);
    DecimalValue(pan);
    var rest2 := c + "," + d;
    var rest1 := b + "," + rest2;
    var s := MotionText(x, y, scroll, pan);
    assert s == head + (a + "," + rest1);
    FirstField(a, rest1, 0);
    FirstField(b, rest2, 0);
    FirstField(c, d, 0);
    OnlyField(d, 0);
    assert Plain(s) by {
      DecimalPlain(x);
      DecimalPlain(y);
      DecimalPlain(scroll);
      DecimalPlain(pan);
    }
    CharactersOf(s);
  }

  // The letters name each of the first three buttons exactly when it is pressed, in order; 0 says that none is.
  predicate Names(s: string, buttons: u8) {
    && ('L' in s <==> buttons % 2 == 1) && ('R' in s <==> buttons / 2 % 2 == 1)
    && ('M' in s <==> buttons / 4 % 2 == 1) && ('0' in s <==> buttons == 0)
    && s in {"0", "", "L", "R", "M", "LR", "LM", "RM", "LRM"}
  }

  // The second command names the buttons.
  lemma ButtonsSaid(x: i8, y: i8, scroll: i8, pan: i8, buttons: u8)
    ensures var s := Characters(Text(MouseMove(x, y, scroll, pan, buttons), 1));
      |s| >= 21 && s[..21] == "AT+BLEHIDMOUSEBUTTON=" && Names(s[21..], buttons)
  {
    hide Names;
    var head, letters := "AT+BLEHIDMOUSEBUTTON=", ButtonLetters(buttons);
    ButtonsAre(buttons);
    assert Plain(head + letters) by {
      assert forall i :: 0 <= i < |letters| ==> letters[i] in "LRM0";
    }
    CharactersOf(head + letters);
    assert (head + letters)[21..] == letters;
  }

  lemma ButtonsAre(buttons: u8)
    ensures Names(ButtonLetters(buttons), buttons)
  {
    var l, r, m := buttons % 2 == 1, buttons / 2 % 2 == 1, buttons / 4 % 2 == 1;
    var s := ButtonLetters(buttons);
    if buttons != 0 {
      if l {
        assert s == if r then if m then "LRM" else "LR" else if m then "LM" else "L";
      } else {
        assert s == if r then if m then "RM" else "R" else if m then "M" else "";
      }
    }
  }

  // A key report's command says the modifiers and the six keys, two hexadecimal digits each, with a zero byte
  // between modifiers and keys.
  lemma KeysSaid(modifier: u8, k: Keys)
    ensures var s := Characters(Text(KeyReport(modifier, k), 0));
      && |s| == 42 && s[..19] == "AT+BLEKEYBOARDCODE=" && Value(s[19..21], 16) == modifier && s[21..25] == "-00-"
      && forall i :: 0 <= i < 6 ==>
           Value(s[25 + 3 * i..27 + 3 * i], 16) == k[i] && (i < 5 ==> s[27 + 3 * i] == '-')
  {
    hide Hex2, Value;
    var s := KeyText(modifier, k);
    Hex2Value(modifier);
    assert s[19..21] == Hex2(modifier);
    forall i | 0 <= i < 6 ensures Value(s[25 + 3 * i..27 + 3 * i], 16) == k[i] && (i < 5 ==> s[27 + 3 * i] == '-') {
      Hex2Value(k[i]);
      KeyAt(modifier, k, i);
    }
    KeyPlain(modifier, k);
    CharactersOf(s);
  }

  lemma KeyPlain(modifier: u8, k: Keys)
    ensures Plain(KeyText(modifier, k))
  {
    hide Hex2;
    var a := "AT+BLEKEYBOARDCODE=";
    PlainPair(a, modifier, "-00-");
    var b := a + Hex2(modifier) + "-00-";
    PlainPair(b, k[0], "-");
    PlainPair(b + Hex2(k[0]) + "-", k[1], "-");
    var c := b + Hex2(k[0]) + "-" + Hex2(k[1]) + "-";
    PlainPair(c, k[2], "-");
    PlainPair(c + Hex2(k[2]) + "-", k[3], "-");
    var d := c + Hex2(k[2]) + "-" + Hex2(k[3]) + "-";
    PlainPair(d, k[4], "-");
    PlainPair(d + Hex2(k[4]) + "-", k[5], "");
    assert KeyText(modifier, k) == d + Hex2(k[4]) + "-" + Hex2(k[5]) + "";
  }

  lemma PlainPair(a: string, n: u8, b: string)
    requires Plain(a) && Plain(b)
    ensures Plain(a + Hex2(n) + b)
  {
    HexPlain(n);
  }

  lemma HexPlain(n: u8)
    ensures Plain(Hex2(n))
  {
    DigitsPlain();
  }

  lemma Hex4Plain(n: u16)
    ensures Plain(Hex4(n))
  {
    HexPlain(n / 256);
    HexPlain(n % 256);
  }

  lemma KeyAt(modifier: u8, k: Keys, i: nat)
    requires i < 6
    ensures KeyText(modifier, k)[25 + 3 * i..27 + 3 * i] == Hex2(k[i])
    ensures i < 5 ==> KeyText(modifier, k)[27 + 3 * i] == '-'
  {
    hide Hex2;
  }

  // A consumer report's command says the usage in four hexadecimal digits.
  lemma UsageSaid(usage: u16)
    ensures var s := Characters(Text(Consumer(usage), 0));
      |s| == 26 && s[..22] == "AT+BLEHIDCONTROLKEY=0x" && Value(s[22..], 16) == usage
  {
    hide Hex4, Value;
    var head := "AT+BLEHIDCONTROLKEY=0x";
    Hex4Value(usage);
    Hex4Plain(usage);
    CharactersOf(head + Hex4(usage));
    assert (head + Hex4(usage))[22..] == Hex4(usage);
  }
}
