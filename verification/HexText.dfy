/** The hexadecimal text of a packet, as hex2str in gw/gw.cpp prints it. */
module HexText {
  import opened Bytes

  const SPACE: byte := 0x20
  const ZERO: byte := 0x30
  const LOWER_A: byte := 0x61

  /** One hexadecimal digit in ASCII, letters in lower case. */
  function Digit(d: int): (c: byte)
    requires 0 <= d < 16
  {
    if d < 10 then ZERO + d else LOWER_A + (d - 10)
  }

  /** What one sprintf of the loop writes before its terminator: "0%x " up to nine, else "%2x ". */
  function Group(h: byte): (t: seq<byte>)
    ensures |t| == 3
  {
    if h <= 9 then [ZERO, Digit(h), SPACE]
    else if h < 16 then [SPACE, Digit(h), SPACE]
    else [Digit(h / 16), Digit(h % 16), SPACE]
  }

  function Text(hex: seq<byte>): (t: seq<byte>)
    ensures |t| == 3 * |hex|
  {
    if hex == [] then [] else Text(hex[..|hex| - 1]) + Group(hex[|hex| - 1])
  }

  lemma TextStep(hex: seq<byte>, i: nat)
    requires i < |hex|
    ensures Text(hex[..i + 1]) == Text(hex[..i]) + Group(hex[i])
  {
    assert hex[..i + 1][..i] == hex[..i];
  }

  /** A buffer that begins with a text and its terminator. */
  function Printed(was: seq<byte>, t: seq<byte>): (s: seq<byte>)
    requires |t| < |was|
    ensures |s| == |was|
  {
    t + [0] + was[|t| + 1..]
  }

  lemma PrintedOn(was: seq<byte>, t: seq<byte>, more: seq<byte>)
    requires |t| + |more| < |was| && 0 < |more|
    ensures Printed(was, t)[..|t|] + more + [0] + Printed(was, t)[|t| + |more| + 1..] == Printed(was, t + more)
    ensures was[..0] + more + [0] + was[|more| + 1..] == Printed(was, more)
  {
  }

  lemma SeparatorCut(was: seq<byte>, t: seq<byte>, s: seq<byte>)
    requires 0 < |t| < |was| && s == Printed(was, t)[|t| - 1 := 0]
    ensures s[..|t| - 1] == t[..|t| - 1] && s[|t| - 1] == s[|t|] == 0
    ensures s[|t| + 1..] == was[|t| + 1..]
  {
  }

  /** Writes three characters and a terminator. */
  method Sprintf(str: array<byte>, at: nat, t: seq<byte>)
    requires |t| == 3 && at + 4 <= str.Length
    modifies str
    ensures str[..] == old(str[..])[..at] + t + [0] + old(str[..])[at + 4..]
  {
    str[at] := t[0];
    str[at + 1] := t[1];
    str[at + 2] := t[2];
    str[at + 3] := 0;
  }

  /** One turn of the loop, overwriting the terminator of the turn before. */
  method PrintGroup(str: array<byte>, i: nat, h: byte, ghost was: seq<byte>, ghost hex: seq<byte>)
    requires i < |hex| && hex[i] == h && 3 * i + 4 <= |was|
    requires str[..] == if i == 0 then was else Printed(was, Text(hex[..i]))
    modifies str
    ensures str[..] == Printed(was, Text(hex[..i + 1]))
  {
    TextStep(hex, i);
    PrintedOn(was, Text(hex[..i]), Group(h));
    Sprintf(str, 3 * i, Group(h));
  }

  method PrintGroups(str: array<byte>, hex: array<byte>, size: int)
    requires str != hex && 1 <= size <= hex.Length && 3 * size + 1 <= str.Length
    modifies str
    ensures str[..] == Printed(old(str[..]), Text(hex[..][..size]))
  {
    ghost var was, bytes := str[..], hex[..];
    var i := 0;
    while i < size
      invariant 0 <= i <= size && hex[..] == bytes
      invariant str[..] == if i == 0 then was else Printed(was, Text(bytes[..i]))
    {
      PrintGroup(str, i, hex[i], was, bytes);
      i := i + 1;
    }
  }

  /** Fills str with the text of the first size bytes; the last separator becomes the terminator. */
  method Hex2Str(str: array<byte>, hex: array<byte>, size: int)
    requires str != hex && 1 <= size <= hex.Length && 3 * size + 1 <= str.Length
    modifies str
    ensures str[..3 * size - 1] == Text(hex[..size])[..3 * size - 1]
    ensures str[3 * size - 1] == str[3 * size] == 0
    ensures str[3 * size + 1..] == old(str[3 * size + 1..])
  {
    ghost var was, bytes := str[..], hex[..];
    PrintGroups(str, hex, size);
    str[size * 3 - 1] := 0;
    assert bytes[..size] == hex[..size];
    SeparatorCut(was, Text(bytes[..size]), str[..]);
  }

  // ---------------------------------------------------------------- reading it back

  function Value(c: byte): int {
    if ZERO <= c < ZERO + 10 then c - ZERO
    else if LOWER_A <= c < LOWER_A + 6 then c - LOWER_A + 10
    else 0
  }

  /** Reads the two characters of each group, a space standing for zero. */
  function Decode(text: seq<byte>): (hex: seq<int>)
    decreases |text|
  {
    if |text| < 2 then []
    else if |text| == 2 then [16 * Value(text[0]) + Value(text[1])]
    else [16 * Value(text[0]) + Value(text[1])] + Decode(text[3..])
  }

  /** A byte by its two digits, 0 to 9 and a to f in ASCII; below sixteen a zero pads it, but from ten on a space. */
  lemma GroupPrinted(h: byte)
    ensures var digits := "0123456789abcdef";
            && Group(h)[1] == digits[h % 16] as int && Group(h)[2] == ' ' as int
            && Group(h)[0] == if 10 <= h < 16 then ' ' as int else digits[h / 16] as int
  {
    DigitPrinted(h % 16);
    DigitPrinted(h / 16);
  }

  lemma DigitPrinted(d: nat)
    requires d < 16
    ensures Digit(d) == "0123456789abcdef"[d] as int
  {
  }

  /** So is every byte of a packet, in its own three places of the text. */
  lemma {:induction false} TextPrinted(hex: seq<byte>, k: nat)
    requires k < |hex|
    ensures Text(hex)[3 * k..3 * k + 3] == Group(hex[k])
    decreases |hex|
  {
    var n := |hex| - 1;
    if k < n {
      TextPrinted(hex[..n], k);
      assert Text(hex)[3 * k..3 * k + 3] == Text(hex[..n])[3 * k..3 * k + 3];
    }
  }

  lemma {:induction false} TextCons(h: byte, rest: seq<byte>)
    ensures Text([h] + rest) == Group(h) + Text(rest)
  {
    var all := [h] + rest;
    if rest == [] {
      assert all[..0] == [] && all[0] == h;
    } else {
      var n := |rest| - 1;
      assert all[..|all| - 1] == [h] + rest[..n];
      TextCons(h, rest[..n]);
    }
  }

  lemma GroupDecodes(h: byte)
    ensures 16 * Value(Group(h)[0]) + Value(Group(h)[1]) == h
  {
  }

  lemma DecodeOne(g: seq<byte>)
    requires |g| == 3
    ensures Decode((g + [])[..2]) == [16 * Value(g[0]) + Value(g[1])]
  {
  }

  lemma DecodeCons(g: seq<byte>, rest: seq<byte>, n: nat)
    requires |g| == 3 && n <= |rest|
    ensures Decode((g + rest)[..n + 3]) == [16 * Value(g[0]) + Value(g[1])] + Decode(rest[..n])
  {
    assert (g + rest)[..n + 3][3..] == rest[..n];
  }

  /** No two packets print alike: the text, without its last separator, decodes to the bytes. */
  lemma {:induction false} DecodeInverts(hex: seq<byte>)
    requires hex != []
    ensures Decode(Text(hex)[..3 * |hex| - 1]) == hex
    decreases |hex|
  {
    var h, rest := hex[0], hex[1..];
    assert hex == [h] + rest;
    TextCons(h, rest);
    GroupDecodes(h);
    if rest == [] {
      DecodeOne(Group(h));
    } else {
      DecodeInverts(rest);
      DecodeCons(Group(h), Text(rest), 3 * |rest| - 1);
    }
  }

  /** The text contains no terminator, so the C string is exactly 3n - 1 characters long. */
  lemma {:induction false} NoTerminatorInside(hex: seq<byte>, i: nat)
    requires i < 3 * |hex|
    ensures Text(hex)[i] != 0
    ensures i % 3 == 2 ==> Text(hex)[i] == SPACE
    decreases |hex|
  {
    var n := |hex| - 1;
    if i < 3 * n {
      NoTerminatorInside(hex[..n], i);
    } else {
      assert Text(hex)[i] == Group(hex[n])[i - 3 * n];
    }
  }
}
