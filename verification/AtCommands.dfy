// The AT commands that carry reports to the Bluefruit module (process_queue_item).
module AtCommands {
  import opened Clock
  import opened Sdep

  type i8 = x: int | -0x80 <= x < 0x80

  type Keys = k: seq<u8> | |k| == 6 witness [0, 0, 0, 0, 0, 0]

  datatype Item =
    | KeyReport(modifier: u8, keys: Keys)
    | Consumer(usage: u16)
    | MouseMove(x: i8, y: i8, scroll: i8, pan: i8, buttons: u8)

  function Ascii(s: string): (b: seq<u8>)
    ensures |b| == |s|
  {
    seq(|s|, i requires 0 <= i < |s| => (s[i] as int) % 256)
  }

  const DIGITS := "0123456789abcdef"

  // %02x and %04x
  function Hex2(n: u8): (s: string)
    ensures |s| == 2
  {
    [DIGITS[n / 16], DIGITS[n % 16]]
  }

  function Hex4(n: u16): (s: string)
    ensures |s| == 4
  {
    Hex2(n / 256) + Hex2(n % 256)
  }

  function Digits(n: nat): (s: string)
    ensures |s| >= 1
    ensures (n < 10 ==> |s| == 1) && (n < 100 ==> |s| <= 2) && (n < 1000 ==> |s| <= 3)
  {
    if n < 10 then [DIGITS[n]] else Digits(n / 10) + [DIGITS[n % 10]]
  }

  // %d
  function Decimal(n: i8): (s: string)
    ensures |s| <= 4
  {
    var m: int := n;
    if m < 0 then "-" + Digits(-m) else Digits(m)
  }

  // The letters of the pressed buttons, or 0.
  function ButtonLetters(buttons: u8): (s: string)
    ensures |s| <= 3
  {
    if buttons == 0 then "0"
    else (if buttons % 2 == 1 then "L" else "") + (if buttons / 2 % 2 == 1 then "R" else "")
         + if buttons / 4 % 2 == 1 then "M" else ""
  }

  function KeyText(modifier: u8, k: Keys): (s: string)
    ensures |s| == 42
  {
    "AT+BLEKEYBOARDCODE=" + Hex2(modifier) + "-00-" + Hex2(k[0]) + "-" + Hex2(k[1]) + "-" + Hex2(k[2]) + "-"
    + Hex2(k[3]) + "-" + Hex2(k[4]) + "-" + Hex2(k[5])
  }

  function MotionText(x: i8, y: i8, scroll: i8, pan: i8): (s: string)
    ensures |s| <= 38
  {
    "AT+BLEHIDMOUSEMOVE=" + Decimal(x) + "," + Decimal(y) + "," + Decimal(scroll) + "," + Decimal(pan)
  }

  // A mouse report takes two AT commands, one for the motion and one for the buttons.
  function Commands(item: Item): (n: nat)
    ensures 1 <= n <= 2
  {
    if item.MouseMove? then 2 else 1
  }

  // The part-th command of an item.
  function Text(item: Item, part: nat): (b: seq<u8>)
    requires part < Commands(item)
  {
    match item
    case KeyReport(modifier, keys) => Ascii(KeyText(modifier, keys))
    case Consumer(usage) => Ascii("AT+BLEHIDCONTROLKEY=0x" + Hex4(usage))
    case MouseMove(x, y, scroll, pan, buttons) =>
      if part == 0 then Ascii(MotionText(x, y, scroll, pan))
      else Ascii("AT+BLEHIDMOUSEBUTTON=" + ButtonLetters(buttons))
  }

  // Every command fits the driver's buffer of 48 bytes with its final zero; a key report takes three packets.
  lemma TextFits(item: Item, part: nat)
    requires part < Commands(item)
    ensures |Text(item, part)| < 48
    ensures item.KeyReport? ==> |Fragments(Text(item, part))| == 3
    ensures item.Consumer? ==> |Fragments(Text(item, part))| == 2
  {
    FragmentsFrame(Text(item, part));
  }
}
