/** The bit-packing helpers of huffman_file_compressor.py: `byte_to_chr`
    packs a '0'/'1' string into characters of 8 bits each, `chr_to_byte`
    unpacks characters back into bits, and `ord_seq` / `chr_seq` map
    between a string and its character codes. */
module FileCompressor {
  import opened Results
  import opened Bits

  lemma PortionValues()
    ensures Pow2(8) == 256
  {
  }

  /** 8 times a count is a whole number of portions. */
  lemma WholePortions(n: nat)
    ensures (8 * n) % 8 == 0
  {
  }

  /** Whole numbers of portions, one portion apart. */
  lemma PortionStep(i: nat, n: nat)
    requires i % 8 == 0 && n % 8 == 0 && i < n
    ensures i + 8 <= n && (i + 8) % 8 == 0 && (n - 8) % 8 == 0
  {
    var p, q := i / 8, n / 8;
    assert i == 8 * p && n == 8 * q;
    assert p < q;
    assert i + 8 == 8 * (p + 1) && n - 8 == 8 * (q - 1);
  }

  /** Characters that `chr_to_byte` renders in exactly one portion. */
  predicate Bytes(s: string) {
    forall k :: 0 <= k < |s| ==> s[k] as int < 256
  }

  // ---- byte_to_chr ----

  /** Line 16: `bits` followed by the '0's that fill its last portion. */
  function Padded(bits: string): (r: string)
    ensures |r| % 8 == 0 && |bits| <= |r| < |bits| + 8
    ensures r[..|bits|] == bits
    ensures forall k :: |bits| <= k < |r| ==> r[k] == '0'
    ensures IsBinary(bits) <==> IsBinary(r)
  {
    var r := bits + Zeros((8 - |bits|) % 8);
    assert forall k :: 0 <= k < |bits| ==> r[k] == bits[k];
    r
  }

  /** Lines 17-19 on a bit string whose length is a multiple of a portion:
      the characters coded by its portions in order, where `int(portion, 2)`
      raises ValueError on anything but '0' and '1'. */
  function Pack(bits: string): (r: Result<string>)
    requires |bits| % 8 == 0
    ensures r.Ok? <==> IsBinary(bits)
    ensures r.Err? ==> r.error == ValueError
    ensures r.Ok? ==> 8 * |r.value| == |bits| && Bytes(r.value)
    decreases |bits|
  {
    if bits == [] then Ok("")
    else
      var n := |bits| - 8;
      var init, chunk := bits[..n], bits[n..];
      assert bits == init + chunk;
      assert IsBinary(bits) <==> IsBinary(init) && IsBinary(chunk) by {
        assert forall k :: 0 <= k < n ==> bits[k] == init[k];
        assert forall k :: n <= k < |bits| ==> bits[k] == chunk[k - n];
      }
      match Pack(init)
      case Err(e) => Err(e)
      case Ok(chars) =>
        match ParseBinary(chunk)
        case Err(e) => Err(e)
        case Ok(v) =>
          PortionValues();
          Ok(chars + [v as char])
  }

  /** One more binary portion packs one more character. */
  lemma PackSnoc(init: string, chunk: string)
    requires |init| % 8 == 0 && |chunk| == 8
    requires IsBinary(init) && IsBinary(chunk)
    ensures Value(chunk) < 256
    ensures Pack(init + chunk) == Ok(Pack(init).value + [Value(chunk) as char])
  {
    var bits := init + chunk;
    assert bits[..|init|] == init && bits[|init|..] == chunk;
    PortionValues();
    ValueBound(chunk);
  }

  /** `byte_to_chr(bits)` (lines 6-20): the padded bits packed portion by
      portion, a portion (`portion_length`, line 14) being 8 bits. */
  method ByteToChr(bits0: string) returns (r: Result<string>)
    ensures r == Pack(Padded(bits0))
  {
    var bits := bits0 + Zeros((8 - |bits0|) % 8);
    assert bits == Padded(bits0);
    var chrArr := "";
    var i := 0;
    while i < |bits|
      invariant i <= |bits| && i % 8 == 0
      invariant Pack(bits[..i]) == Ok(chrArr)
      decreases |bits| - i
    {
      PortionStep(i, |bits|);
      var chunk := bits[i..i + 8];
      var charCode := ParseBinary(chunk);
      if charCode.Err? {
        PackPrefix(bits, i, chunk);
        return Err(ValueError);
      }
      assert bits[..i + 8] == bits[..i] + chunk;
      PackSnoc(bits[..i], chunk);
      chrArr := chrArr + [charCode.value as char];
      i := i + 8;
    }
    assert bits[..i] == bits;
    r := Ok(chrArr);
  }

  /** A portion that is not binary makes the whole packing fail. */
  lemma PackPrefix(bits: string, i: nat, chunk: string)
    requires |bits| % 8 == 0 && i + 8 <= |bits|
    requires chunk == bits[i..i + 8] && !IsBinary(chunk)
    ensures Pack(bits) == Err(ValueError)
  {
    var k :| 0 <= k < |chunk| && chunk[k] != '0' && chunk[k] != '1';
    assert bits[i + k] == chunk[k];
  }

  /** Each packed character is the value of its portion, most significant
      bit first (lines 17-19). */
  lemma {:induction false} PackChars(bits: string, k: nat)
    requires |bits| % 8 == 0 && Pack(bits).Ok?
    requires k < |Pack(bits).value|
    ensures 8 * k + 8 <= |bits|
    ensures Pack(bits).value[k] as nat == Value(bits[8 * k..8 * k + 8])
    decreases |bits|
  {
    var n := |bits| - 8;
    PackLast(bits, n);
    var init := bits[..n];
    var chars := Pack(init).value;
    if k < |chars| {
      PackChars(init, k);
      assert init[8 * k..8 * k + 8] == bits[8 * k..8 * k + 8];
    } else {
      assert 8 * k == n;
      assert bits[8 * k..8 * k + 8] == bits[n..];
      assert Pack(bits).value[k] == Value(bits[n..]) as char;
    }
  }

  /** The last portion of a binary string packs its last character. */
  lemma PackLast(bits: string, n: int)
    requires |bits| % 8 == 0 && IsBinary(bits) && n == |bits| - 8 && bits != []
    ensures 0 <= n && n % 8 == 0 && IsBinary(bits[..n]) && IsBinary(bits[n..])
    ensures 8 * |Pack(bits[..n]).value| == n && Value(bits[n..]) < 256
    ensures Pack(bits) == Ok(Pack(bits[..n]).value + [Value(bits[n..]) as char])
  {
    PortionStep(0, |bits|);
    var init, chunk := bits[..n], bits[n..];
    assert bits == init + chunk;
    assert forall j :: 0 <= j < n ==> init[j] == bits[j];
    assert forall j :: 0 <= j < 8 ==> chunk[j] == bits[n + j];
    PackSnoc(init, chunk);
  }

  /** What `byte_to_chr` returns: ValueError exactly when the bits are not all
      '0' or '1', otherwise one character per started portion whose code is
      that portion's value, so below 256. */
  lemma ByteToChrResult(bits: string, k: nat)
    ensures Pack(Padded(bits)).Ok? <==> IsBinary(bits)
    ensures Pack(Padded(bits)).Err? ==> Pack(Padded(bits)).error == ValueError
    ensures Pack(Padded(bits)).Ok? ==>
      var chars := Pack(Padded(bits)).value;
      |chars| == (|bits| + 8 - 1) / 8 && Bytes(chars) &&
      (k < |chars| ==> chars[k] as nat == Value(Padded(bits)[8 * k..8 * k + 8]))
  {
    var padded := Padded(bits);
    if Pack(padded).Ok? {
      var chars := Pack(padded).value;
      assert 8 * |chars| == |padded|;
      if k < |chars| {
        PackChars(padded, k);
      }
    }
  }

  // ---- chr_to_byte ----

  /** Line 31 for one character: `format(ord(ch), '#010b')` with its `0b`
      removed, the binary code zero-filled to 8 digits. */
  function CharBits(c: char): (b: string)
    ensures IsBinary(b) && Value(b) == c as nat
    ensures c as nat < 256 ==> |b| == 8
    ensures c as nat >= 256 ==> |b| > 8
  {
    PortionValues();
    BinFits(c as nat, 8);
    Render(c as nat, 8)
  }

  /** Lines 29-32: the bits of each character, in order. */
  function Unpack(s: string): (bits: string)
    ensures IsBinary(bits)
  {
    if s == [] then ""
    else
      var n := |s| - 1;
      var bits := Unpack(s[..n]) + CharBits(s[n]);
      assert forall k :: 0 <= k < |bits| ==> bits[k] == '0' || bits[k] == '1' by {
        var a := Unpack(s[..n]);
        assert forall k :: |a| <= k < |bits| ==> bits[k] == CharBits(s[n])[k - |a|];
      }
      bits
  }

  /** `chr_to_byte(chr_arr)` (lines 23-32). */
  method ChrToByte(chrArr: string) returns (bits: string)
    ensures bits == Unpack(chrArr)
  {
    bits := "";
    for i := 0 to |chrArr|
      invariant bits == Unpack(chrArr[..i])
    {
      assert chrArr[..i + 1][..i] == chrArr[..i];
      bits := bits + CharBits(chrArr[i]);
    }
    assert chrArr[..|chrArr|] == chrArr;
  }

  /** Strings of 8-bit characters unpack to exactly 8 bits per character. */
  lemma {:induction false} UnpackLength(s: string)
    requires Bytes(s)
    ensures |Unpack(s)| == 8 * |s|
  {
    if s != [] {
      var n := |s| - 1;
      assert Bytes(s[..n]) by {
        assert forall k :: 0 <= k < n ==> s[..n][k] == s[k];
      }
      UnpackLength(s[..n]);
    }
  }

  /** Packing undoes unpacking on 8-bit characters. */
  lemma {:induction false} PackUnpack(s: string)
    requires Bytes(s)
    ensures |Unpack(s)| % 8 == 0 && Pack(Unpack(s)) == Ok(s)
  {
    UnpackLength(s);
    WholePortions(|s|);
    if s != [] {
      var n := |s| - 1;
      var init, c := s[..n], s[n];
      LastByte(s, n);
      PackUnpack(init);
      UnpackLength(init);
      UnpackSnoc(init, c);
      PackSnoc(Unpack(init), CharBits(c));
    }
  }

  /** The characters of an 8-bit string before its last one are 8-bit too. */
  lemma LastByte(s: string, n: nat)
    requires Bytes(s) && n + 1 == |s|
    ensures Bytes(s[..n]) && s[n] as nat < 256 && s == s[..n] + [s[n]]
  {
    assert forall k :: 0 <= k < n ==> s[..n][k] == s[k];
  }

  /** Unpacking undoes packing. */
  lemma {:induction false} UnpackPack(bits: string)
    requires |bits| % 8 == 0 && Pack(bits).Ok?
    ensures Unpack(Pack(bits).value) == bits
    decreases |bits|
  {
    if bits != [] {
      var n := |bits| - 8;
      var init, chunk := bits[..n], bits[n..];
      LastChunk(bits, n);
      UnpackPack(init);
      PackSnoc(init, chunk);
      ChunkChar(chunk);
      UnpackSnoc(Pack(init).value, Value(chunk) as char);
    }
  }

  /** A binary string splits into binary bytes before its last byte and
      that last byte. */
  lemma LastChunk(bits: string, n: nat)
    requires IsBinary(bits) && n + 8 == |bits| && |bits| % 8 == 0
    ensures bits == bits[..n] + bits[n..] && |bits[..n]| % 8 == 0 && |bits[n..]| == 8
    ensures IsBinary(bits[..n]) && IsBinary(bits[n..])
  {
    var init, chunk := bits[..n], bits[n..];
    assert bits == init + chunk;
    assert forall k :: 0 <= k < n ==> init[k] == bits[k];
    assert forall k :: 0 <= k < 8 ==> chunk[k] == bits[n + k];
  }

  /** Eight bits make a character whose `format(.., '08b')` gives them back. */
  lemma ChunkChar(chunk: string)
    requires IsBinary(chunk) && |chunk| == 8 && Value(chunk) < 256
    ensures CharBits(Value(chunk) as char) == chunk
  {
    RenderValue(chunk);
  }

  /** Unpacking one more character appends its eight bits. */
  lemma UnpackSnoc(chars: string, c: char)
    ensures Unpack(chars + [c]) == Unpack(chars) + CharBits(c)
  {
    var all := chars + [c];
    assert all[..|chars|] == chars;
  }

  /** `chr_to_byte(byte_to_chr(bits))` is `bits` followed by the padding
      zeros. */
  lemma BitsRoundTrip(bits: string)
    requires IsBinary(bits)
    ensures Pack(Padded(bits)).Ok?
    ensures var u := Unpack(Pack(Padded(bits)).value);
      |bits| <= |u| < |bits| + 8 && u[..|bits|] == bits &&
      forall k :: |bits| <= k < |u| ==> u[k] == '0'
  {
    UnpackPack(Padded(bits));
  }

  /** `byte_to_chr(chr_to_byte(s)) == s` for strings of 8-bit characters, and
      `chr_to_byte` emits 8 bits per character. */
  lemma CharsRoundTrip(s: string)
    requires Bytes(s)
    ensures |Unpack(s)| == 8 * |s|
    ensures Pack(Padded(Unpack(s))) == Ok(s)
  {
    UnpackLength(s);
    PackUnpack(s);
    NoPadding(Unpack(s));
  }

  /** A whole number of portions is left as it is. */
  lemma NoPadding(bits: string)
    requires |bits| % 8 == 0
    ensures Padded(bits) == bits
  {
    var q := |bits| / 8;
    assert 8 - |bits| == 8 * (1 - q);
    assert |Padded(bits)| == |bits|;
  }

  /** A character with a code of 256 or more does not fit a portion: its
      bits are longer than 8 and the round trip fails. */
  lemma WideChar(c: char)
    requires c as nat >= 256
    ensures |Unpack([c])| > 8
  {
    assert [c][..0] == [];
  }

  // ---- ord_seq and chr_seq ----

  /** The code points Python's `chr` maps to characters of this model:
      `chr` raises ValueError outside 0..0x10FFFF. */
  predicate IsCodePoint(n: int) {
    0 <= n < 0xD800 || 0xE000 <= n < 0x11_0000
  }

  /** `ord_seq(chr_arr)` (lines 35-41). */
  function OrdSeq(s: string): (r: seq<int>)
    ensures |r| == |s|
    ensures forall k :: 0 <= k < |s| ==> r[k] == s[k] as int && IsCodePoint(r[k])
  {
    seq(|s|, k requires 0 <= k < |s| => s[k] as int)
  }

  /** `chr_seq(ord_arr)` (lines 44-50): the characters of the codes, or
      ValueError on a code that is not a character. */
  function ChrSeq(ords: seq<int>): (r: Result<string>)
    ensures r.Ok? <==> forall k :: 0 <= k < |ords| ==> IsCodePoint(ords[k])
    ensures r.Err? ==> r.error == ValueError
    ensures r.Ok? ==> |r.value| == |ords|
  {
    if forall k :: 0 <= k < |ords| ==> IsCodePoint(ords[k])
    then Ok(seq(|ords|, k requires 0 <= k < |ords| => ords[k] as char))
    else Err(ValueError)
  }

  /** `chr_seq(ord_seq(s)) == s`. */
  lemma ChrSeqOrdSeq(s: string)
    ensures ChrSeq(OrdSeq(s)) == Ok(s)
  {
    var ords := OrdSeq(s);
    assert forall k :: 0 <= k < |ords| ==> IsCodePoint(ords[k]);
    var r := ChrSeq(ords);
    assert r.Ok?;
    assert |r.value| == |s|;
    assert forall k :: 0 <= k < |s| ==> r.value[k] == ords[k] as char == s[k];
    assert r.value == s;
  }

  /** `ord_seq(chr_seq(ords)) == ords` whenever `chr_seq` succeeds. */
  lemma OrdSeqChrSeq(ords: seq<int>)
    requires ChrSeq(ords).Ok?
    ensures OrdSeq(ChrSeq(ords).value) == ords
  {
    var r := OrdSeq(ChrSeq(ords).value);
    assert |r| == |ords|;
    assert forall k :: 0 <= k < |ords| ==> r[k] == ords[k];
  }
}
