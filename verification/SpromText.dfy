/** The text form of an SPROM image: two hexadecimal digits a byte. */
module SpromText {
  import opened Wrappers
  import opened Bytes

  const SPROM_SIZE := 128
  const SPROM4_SIZE := 440
  const BUFFER_SIZE := SPROM4_SIZE + 10

  /** Overrun stands for a write behind the buffer, which the code does not check for. */
  datatype ParseError = TooShort | BadRevision | Overrun

  /** What the input turned out to be. */
  datatype Layout = Layout(size: nat, rev: byte)

  // ---------------------------------------------------------------- writing

  function HexDigit(n: nat): char
    requires n < 16
  {
    "0123456789ABCDEF"[n]
  }

  /** `%02X` */
  function HexByte(b: byte): (s: string)
    ensures |s| == 2
  {
    [HexDigit(b / 0x10), HexDigit(b % 0x10)]
  }

  function Hexdump(image: seq<byte>): (s: string)
    ensures |s| == 2 * |image|
  {
    if image == [] then "" else Hexdump(image[..|image| - 1]) + HexByte(image[|image| - 1])
  }

  /** hexdump_sprom */
  method HexdumpSprom(image: array<byte>, size: nat) returns (s: string)
    requires size <= image.Length
    ensures s == Hexdump(image[..size])
  {
    s := "";
    for i := 0 to size
      invariant s == Hexdump(image[..i])
    {
      s := s + HexByte(image[i]);
      assert image[..i + 1][..i] == image[..i];
    }
  }

  // ---------------------------------------------------------------- reading

  function DigitValue(c: char): (r: Option<nat>)
    ensures r.Some? ==> r.value < 16
  {
    if '0' <= c <= '9' then Some(c as nat - '0' as nat)
    else if 'A' <= c <= 'F' then Some(c as nat - 'A' as nat + 10)
    else if 'a' <= c <= 'f' then Some(c as nat - 'a' as nat + 10)
    else None
  }

  /** strtoul of two characters to base 16, and the low byte of that. */
  function ParsePair(c: char, d: char): byte {
    var (high, low) := (DigitValue(c), DigitValue(d));
    if high.Some? then if low.Some? then high.value * 0x10 + low.value else high.value
    else if low.None? then 0
    else if c == '-' then (0x100 - low.value) % 0x100
    else if c == '+' || c == ' ' || '\t' <= c <= '\r' then low.value
    else 0
  }

  function ParsePairs(text: string, start: nat, n: nat): (r: seq<byte>)
    requires start + 2 * n <= |text|
    ensures |r| == n
  {
    seq(n, k requires 0 <= k < n => ParsePair(text[start + 2 * k], text[start + 2 * k + 1]))
  }

  /** Behind the first colon, if there is one in front of the first NUL, and at the start otherwise. */
  function DataStart(text: string, from: nat): (r: nat)
    requires from <= |text|
    ensures r <= |text|
    decreases |text| - from
  {
    if from == |text| || text[from] == '\0' then 0
    else if text[from] == ':' then from + 1
    else DataStart(text, from + 1)
  }

  /** The text as it is kept in memory, and the length of the data in it, the NUL included. */
  function DataLength(content: string): nat {
    var text := content + ['\0'];
    |text| - DataStart(text, 0)
  }

  function SizeFor(length: nat): nat {
    if length > 300 then SPROM4_SIZE else SPROM_SIZE
  }

  predicate LegalRevision(rev: byte) {
    rev <= 8 && rev != 6 && rev != 7
  }

  /** The loop of parse_input, which stops where it would leave the buffer. */
  method FillPairs(text: string, start: nat, n: nat, sprom: array<byte>) returns (overrun: bool)
    requires start + 2 * n <= |text|
    modifies sprom
    ensures overrun <==> n > sprom.Length
    ensures var m := if overrun then sprom.Length else n;
            sprom[..] == ParsePairs(text, start, m) + old(sprom[..])[m..]
  {
    ghost var m := if n > sprom.Length then sprom.Length else n;
    ghost var parsed := ParsePairs(text, start, m);
    for k := 0 to n
      invariant k <= m && sprom[..k] == parsed[..k] && sprom[k..] == old(sprom[..])[k..]
    {
      if k == sprom.Length {
        assert sprom[..] == sprom[..k];
        return true;
      }
      sprom[k] := ParsePair(text[start + 2 * k], text[start + 2 * k + 1]);
    }
    assert sprom[..] == sprom[..n] + sprom[n..];
    return false;
  }

  /** parse_input for text: it fills the front of the buffer, and would write behind it exactly when more
      than 900 characters follow the colon; the whole input is checked against a mebibyte only. */
  method ParseInput(content: string, sprom: array<byte>) returns (r: Result<Layout, ParseError>)
    requires sprom.Length == BUFFER_SIZE
    modifies sprom
    ensures r == Err(Overrun) <==> |content| > DataStart(content + ['\0'], 0) + 900
    ensures var (text, length) := (content + ['\0'], DataLength(content));
            if length < 2 * SPROM_SIZE then r == Err(TooShort) && sprom[..] == old(sprom[..])
            else
              var n := if r == Err(Overrun) then BUFFER_SIZE else length / 2;
              && sprom[..] == ParsePairs(text, DataStart(text, 0), n) + old(sprom[..])[n..]
              && var (size, rev) := (SizeFor(length), sprom[SizeFor(length) - 2]);
                 r != Err(Overrun) ==> r == if LegalRevision(rev) then Ok(Layout(size, rev)) else Err(BadRevision)
    ensures r.Ok? ==> var v := r.value;
              && v.size == (if DataLength(content) > 300 then 440 else 128)
              && v.rev == sprom[v.size - 2] && v.rev in {0, 1, 2, 3, 4, 5, 8}
  {
    var text := content + ['\0'];
    var start := DataStart(text, 0);
    var length := |text| - start;
    if length < 2 * SPROM_SIZE {
      return Err(TooShort);
    }
    var overrun := FillPairs(text, start, length / 2, sprom);
    if overrun {
      return Err(Overrun);
    }
    var size := SizeFor(length);
    var rev := sprom[size - 2];
    return if LegalRevision(rev) then Ok(Layout(size, rev)) else Err(BadRevision);
  }

  // ---------------------------------------------------------------- round trip

  lemma PairBack(b: byte)
    ensures ParsePair(HexByte(b)[0], HexByte(b)[1]) == b
    ensures DigitValue(HexByte(b)[0]).Some? && DigitValue(HexByte(b)[1]).Some?
  {
    DigitBack(b / 0x10);
    DigitBack(b % 0x10);
  }

  /** The first digit is the high one. */
  lemma DigitsInOrder(b: byte)
    ensures DigitValue(HexByte(b)[0]) == Some(b / 0x10) && DigitValue(HexByte(b)[1]) == Some(b % 0x10)
    ensures HexByte(0x1F) == "1F" && HexByte(0xA0) == "A0"
  {
    DigitBack(b / 0x10);
    DigitBack(b % 0x10);
  }

  lemma DigitBack(n: nat)
    requires n < 16
    ensures DigitValue(HexDigit(n)) == Some(n)
  {
  }

  lemma {:induction false} HexdumpAt(image: seq<byte>, k: nat)
    requires k < |image|
    ensures Hexdump(image)[2 * k..2 * k + 2] == HexByte(image[k])
  {
    var n := |image| - 1;
    if k < n {
      HexdumpAt(image[..n], k);
      assert Hexdump(image)[2 * k..2 * k + 2] == Hexdump(image[..n])[2 * k..2 * k + 2];
    }
  }

  lemma {:induction false} NoColon(text: string, from: nat)
    requires from <= |text| && forall i :: from <= i < |text| - 1 ==> text[i] != ':'
    requires |text| > 0 && text[|text| - 1] == '\0'
    ensures DataStart(text, from) == 0
    decreases |text| - from
  {
    if from < |text| {
      NoColon(text, from + 1);
    }
  }

  lemma {:induction false} ColonAt(text: string, from: nat, at: nat)
    requires from <= at < |text| && text[at] == ':'
    requires forall i :: from <= i < at ==> text[i] != ':' && text[i] != '\0'
    ensures DataStart(text, from) == at + 1
    decreases at - from
  {
    if from < at {
      ColonAt(text, from + 1, at);
    }
  }

  lemma HexIsDigits(image: seq<byte>, i: nat)
    requires i < 2 * |image|
    ensures DigitValue(Hexdump(image)[i]).Some?
  {
    var (k, dump) := (i / 2, Hexdump(image));
    HexdumpAt(image, k);
    PairBack(image[k]);
    var pair := dump[2 * k..2 * k + 2];
    assert pair[0] == dump[2 * k] && pair[1] == dump[2 * k + 1];
    assert i == 2 * k || i == 2 * k + 1;
  }

  lemma PairOf(image: seq<byte>, k: nat)
    requires k < |image|
    ensures ParsePair(Hexdump(image)[2 * k], Hexdump(image)[2 * k + 1]) == image[k]
  {
    var dump := Hexdump(image);
    HexdumpAt(image, k);
    PairBack(image[k]);
    assert dump[2 * k..2 * k + 2][0] == dump[2 * k] && dump[2 * k..2 * k + 2][1] == dump[2 * k + 1];
  }

  lemma ParsedAt(text: string, start: nat, n: nat, k: nat, c: char, d: char)
    requires start + 2 * n <= |text| && k < n && text[start + 2 * k] == c && text[start + 2 * k + 1] == d
    ensures ParsePairs(text, start, n)[k] == ParsePair(c, d)
  {
  }

  lemma DumpParses(image: seq<byte>, dump: string, text: string, start: nat)
    requires dump == Hexdump(image) && start + |dump| <= |text| && text[start..start + |dump|] == dump
    ensures ParsePairs(text, start, |image|) == image
  {
    forall k | 0 <= k < |image| ensures ParsePairs(text, start, |image|)[k] == image[k] {
      PairOf(image, k);
      var part := text[start..start + |dump|];
      assert part[2 * k] == text[start + 2 * k] && part[2 * k + 1] == text[start + 2 * k + 1];
      ParsedAt(text, start, |image|, k, dump[2 * k], dump[2 * k + 1]);
    }
  }

  /** The text that is written reads back as the same image, bare or behind a prefix with a colon. */
  lemma DumpReadsBack(image: seq<byte>, prefix: string)
    requires |image| == SPROM_SIZE || |image| == SPROM4_SIZE
    requires IsPrefix(prefix)
    ensures var content := prefix + Hexdump(image);
            var (text, length) := (content + ['\0'], DataLength(content));
            && 2 * SPROM_SIZE <= length && length / 2 == |image| == SizeFor(length) <= BUFFER_SIZE
            && ParsePairs(text, DataStart(text, 0), |image|) == image
  {
    var (dump, text) := (Hexdump(image), prefix + Hexdump(image) + ['\0']);
    DumpStart(image, prefix);
    assert text[|prefix|..|prefix| + |dump|] == dump;
    DumpParses(image, dump, text, |prefix|);
  }

  predicate IsPrefix(prefix: string) {
    prefix == "" || (prefix[|prefix| - 1] == ':' &&
        forall i :: 0 <= i < |prefix| - 1 ==> prefix[i] != ':' && prefix[i] != '\0')
  }

  lemma DumpStart(image: seq<byte>, prefix: string)
    requires IsPrefix(prefix)
    ensures DataStart(prefix + Hexdump(image) + ['\0'], 0) == |prefix|
  {
    var (dump, text) := (Hexdump(image), prefix + Hexdump(image) + ['\0']);
    if prefix == "" {
      forall i | 0 <= i < |text| - 1 ensures text[i] != ':' {
        HexIsDigits(image, i);
        assert text[i] == dump[i];
      }
      NoColon(text, 0);
    } else {
      ColonAt(text, 0, |prefix| - 1);
    }
  }
}
