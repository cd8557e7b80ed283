/**
 A 32-byte FAT directory entry (Microsoft "FAT: General Overview of On-Disk
 Format", section "FAT Directory Structure") and the name that
 src/fs/fat/fat16.c renders from it.
 */
module DirectoryEntry {
  import opened CTypes

  type Entry = e: seq<uint8> | |e| == 32 witness seq(32, i => 0)

  const SPACE: uint8 := 0x20
  const SUBDIRECTORY: nat := 0x10

  predicate IsDirectory(e: Entry) {
    BitAnd(e[11], SUBDIRECTORY) != 0
  }

  /** A 16-bit little-endian field. */
  function Word(e: Entry, i: nat): uint16
    requires i + 1 < 32
  {
    var low: int, high: int := e[i], e[i + 1];
    low + 256 * high
  }

  /** The 32-bit little-endian size field. */
  function FileSize(e: Entry): uint32 {
    var low: int, high: int := Word(e, 28), Word(e, 30);
    low + 0x1_0000 * high
  }

  /** fat16_get_first_cluster: the two halves or-ed together without a shift. */
  function FirstCluster(e: Entry): (c: uint16) {
    Shl16();
    BitOrBound(Word(e, 20), Word(e, 26), 16);
    BitOr(Word(e, 20), Word(e, 26))
  }

  lemma Shl16()
    ensures Shl(1, 16) == 0x1_0000
  {
    Shl12(1);
    Shl4(4096);
    ShlScales(1, 4, 12);
  }

  /** Bit 4 of the attribute byte marks a directory. */
  lemma IsDirectoryIff(e: Entry)
    ensures IsDirectory(e) <==> e[11] / 16 % 2 == 1
  {
    BitAndSixteen(e[11]);
  }

  /** Bytes 26 to 31 are the little-endian digits of a cluster and of a size. */
  predicate HoldsFields(e: Entry, cluster: uint16, size: uint32) {
    && e[26] == cluster % 0x100 && e[27] == cluster / 0x100
    && e[28] == size % 0x100 && e[29] == size / 0x100 % 0x100
    && e[30] == size / 0x1_0000 % 0x100 && e[31] == size / 0x100_0000
  }

  /**
   While the upper half is 0, the cluster and the size read are those that the bytes spell,
   whatever the other bytes are.
   */
  lemma FieldsReadBackIff(e: Entry, cluster: uint16, size: uint32)
    requires e[20] == 0 && e[21] == 0
    ensures FirstCluster(e) == cluster && FileSize(e) == size <==> HoldsFields(e, cluster, size)
  {
    hide Word;
    WordIs(e, 20, 0);
    WordIs(e, 26, cluster);
    BitOrZero(Word(e, 26));
    WordIs(e, 28, size % 0x1_0000);
    WordIs(e, 30, size / 0x1_0000);
    FourDigits(size);
    HalvesAre(e, size);
  }

  lemma WordIs(e: Entry, i: nat, w: uint16)
    requires i + 1 < 32
    ensures Word(e, i) == w <==> e[i] == w % 0x100 && e[i + 1] == w / 0x100
  {
  }

  lemma FourDigits(n: uint32)
    ensures n % 0x1_0000 % 0x100 == n % 0x100 && n % 0x1_0000 / 0x100 == n / 0x100 % 0x100
    ensures n / 0x1_0000 / 0x100 == n / 0x100_0000
  {
  }

  lemma HalvesAre(e: Entry, size: uint32)
    ensures FileSize(e) == size <==> Word(e, 28) == size % 0x1_0000 && Word(e, 30) == size / 0x1_0000
  {
    hide Word;
  }

  /** With an upper half that is not 0 the bits of both halves run together. */
  lemma FirstClusterBits(e: Entry, k: nat)
    ensures Bit(FirstCluster(e), k) <==>
      Bit(0x100 * (e[21] as int) + e[20], k) || Bit(0x100 * (e[27] as int) + e[26], k)
  {
    BitOrBits(Word(e, 20), Word(e, 26), k);
  }

  /** A NUL or a space ends a name. */
  predicate EndsName(b: uint8) {
    b == 0 || b == SPACE
  }

  /** How many bytes fat16_to_proper_string copies from index i on; it does not know where the field ends. */
  function ScanLength(e: seq<uint8>, i: nat): (n: nat)
    requires i <= |e|
    ensures i + n <= |e|
    ensures forall k | i <= k < i + n :: !EndsName(e[k])
    ensures i + n < |e| ==> EndsName(e[i + n])
    decreases |e| - i
  {
    if i == |e| || EndsName(e[i]) then 0 else 1 + ScanLength(e, i + 1)
  }

  function Chars(bytes: seq<uint8>): (s: string)
    ensures |s| == |bytes|
  {
    seq(|bytes|, i requires 0 <= i < |bytes| => bytes[i] as char)
  }

  /** fat16_get_full_relative_filename. */
  function RenderedName(e: Entry): string {
    var name := Chars(e[..ScanLength(e, 0)]);
    if EndsName(e[8]) then name else name + "." + Chars(e[8..8 + ScanLength(e, 8)])
  }

  /** The name the fields hold: up to eight characters, and if there is an extension a dot and up to three. */
  function ProperName(e: Entry): string {
    var name := Chars(e[..ScanLength(e[..8], 0)]);
    if EndsName(e[8]) then name else name + "." + Chars(e[8..8 + ScanLength(e[8..11], 0)])
  }

  /** A field ends before or at its last byte, or is followed by a byte that ends a name. */
  predicate FieldEnds(e: Entry, i: nat, n: nat)
    requires i + n < 32
  {
    exists k | i <= k <= i + n :: EndsName(e[k])
  }

  lemma {:induction false} ScanInField(e: Entry, i: nat, n: nat, j: nat)
    requires j <= n && i + n < 32
    requires forall k | i <= k < i + j :: !EndsName(e[k])
    ensures ScanLength(e[i..i + n], j) <= ScanLength(e, i + j)
    ensures ScanLength(e[i..i + n], j) == ScanLength(e, i + j) <==> FieldEnds(e, i, n)
    decreases n - j
  {
    if j < n {
      assert e[i..i + n][j] == e[i + j];
      if !EndsName(e[i + j]) {
        ScanInField(e, i, n, j + 1);
      }
    } else {
      assert FieldEnds(e, i, n) <==> EndsName(e[i + n]);
    }
  }

  /** Longer scans give longer texts. */
  lemma SameTextIff(e: Entry, a: nat, b: nat, a': nat, b': nat)
    requires a' <= a <= 32 && b' <= b <= 24
    ensures Chars(e[..a]) == Chars(e[..a']) <==> a == a'
    ensures Chars(e[..a]) + "." + Chars(e[8..8 + b]) == Chars(e[..a']) + "." + Chars(e[8..8 + b'])
      <==> a == a' && b == b'
  {
    hide Chars;
    var x, y := Chars(e[..a]) + "." + Chars(e[8..8 + b]), Chars(e[..a']) + "." + Chars(e[8..8 + b']);
    assert |x| == a + 1 + b && |y| == a' + 1 + b';
  }

  /**
   The rendered name is the one the fields hold exactly when each field read is
   terminated: an eight-character name needs an empty extension behind it, and a
   three-character extension an attribute byte of 0 or 0x20 ("archive").
   */
  lemma RenderedRightIff(e: Entry)
    ensures RenderedName(e) == ProperName(e) <==>
      FieldEnds(e, 0, 8) && (EndsName(e[8]) || FieldEnds(e, 8, 3))
  {
    hide ScanLength;
    hide FieldEnds;
    hide EndsName;
    hide Chars;
    ScanInField(e, 0, 8, 0);
    assert e[0..8] == e[..8];
    ScanInField(e, 8, 3, 0);
    SameTextIff(e, ScanLength(e, 0), ScanLength(e, 8), ScanLength(e[..8], 0), ScanLength(e[8..11], 0));
  }

  /** Eight characters and an extension of two: the name is read on into the extension. */
  lemma RenderedExample(e: Entry)
    requires Chars(e[..12]) == "PROGRAM1HS \0"
    ensures RenderedName(e) == "PROGRAM1HS.HS" && ProperName(e) == "PROGRAM1.HS"
  {
    forall i | 0 <= i < 12 ensures e[i] as char == "PROGRAM1HS \0"[i] {
      assert Chars(e[..12])[i] == e[i] as char;
    }
    ScanIs(e, 0, 10);
    ScanIs(e, 8, 2);
    ScanIs(e[..8], 0, 8);
    ScanIs(e[8..11], 0, 2);
    assert Chars(e[..10]) == "PROGRAM1HS" && Chars(e[..8]) == "PROGRAM1" && Chars(e[8..10]) == "HS";
  }

  /** A field with these characters at the front, and spaces behind them. */
  predicate FieldHolds(field: seq<uint8>, text: string) {
    && |text| <= |field|
    && (forall k | 0 <= k < |text| :: field[k] == text[k] as int && field[k] != 0 && field[k] != 0x20)
    && (forall k | |text| <= k < |field| :: field[k] == 0x20)
  }

  function WithExtension(base: string, ext: string): string {
    if ext == "" then base else base + "." + ext
  }

  lemma FieldText(field: seq<uint8>, text: string)
    requires FieldHolds(field, text)
    ensures ScanLength(field, 0) == |text| && Chars(field[..|text|]) == text
  {
    ScanIs(field, 0, |text|);
  }

  lemma FieldEndsIff(e: Entry, i: nat, n: nat, text: string)
    requires i + n < 32 && FieldHolds(e[i..i + n], text)
    ensures FieldEnds(e, i, n) <==> |text| < n || e[i + n] == 0 || e[i + n] == 0x20
    ensures n > 0 ==> (EndsName(e[i]) <==> text == "")
  {
    var field := e[i..i + n];
    assert forall k | 0 <= k < n :: field[k] == e[i + k];
    assert n > 0 ==> field[0] == e[i];
    if |text| < n {
      assert field[|text|] == e[i + |text|] && EndsName(e[i + |text|]);
    } else {
      forall k | i <= k < i + n ensures !EndsName(e[k]) {
        assert field[k - i] == e[k];
      }
    }
  }

  /**
   A name stored in an entry in the standard's way is rendered as it was exactly when it
   has fewer than eight characters before the dot or no extension, and fewer than three
   behind it or an attribute byte that looks like the end of a name.
   */
  lemma StoredNameRenderedIff(e: Entry, base: string, ext: string)
    requires FieldHolds(e[..8], base) && FieldHolds(e[8..11], ext)
    ensures RenderedName(e) == WithExtension(base, ext) <==>
      (|base| < 8 || ext == "") && (|ext| < 3 || e[11] == 0 || e[11] == 0x20)
  {
    hide ScanLength;
    hide Chars;
    hide FieldEnds;
    hide EndsName;
    hide FieldHolds;
    FieldText(e[..8], base);
    FieldText(e[8..11], ext);
    assert e[0..8] == e[..8] && e[..8][..|base|] == e[..|base|] && e[8..11][..|ext|] == e[8..8 + |ext|] by {
      FieldFits(e[..8], base);
      FieldFits(e[8..11], ext);
    }
    FieldEndsIff(e, 0, 8, base);
    FieldEndsIff(e, 8, 3, ext);
    assert ProperName(e) == WithExtension(base, ext);
    LastByteEnds(e);
    RenderedRightIff(e);
  }

  lemma FieldFits(field: seq<uint8>, text: string)
    requires FieldHolds(field, text)
    ensures |text| <= |field|
  {
  }

  lemma LastByteEnds(e: Entry)
    ensures EndsName(e[8]) <==> e[8] == 0 || e[8] == 0x20
  {
  }

  lemma {:induction false} ScanIs(e: seq<uint8>, i: nat, n: nat)
    requires i + n <= |e| && (forall k | i <= k < i + n :: !EndsName(e[k])) && (i + n < |e| ==> EndsName(e[i + n]))
    ensures ScanLength(e, i) == n
    decreases n
  {
    if n > 0 {
      ScanIs(e, i + 1, n - 1);
    }
  }
}
