/**
 * The key under which a directory record is stored (mkkey in lib/dir.c):
 * the device and inode of the directory printed as "%jx/%jx".
 */
module Keys {

  import opened Wrappers
  import opened Numerals

  /** Size of the `char key[32]` buffer that mkkey prints into. */
  const KeyBufLen: nat := 32

  /** dev_t and ino_t are 64-bit unsigned integers: below 16^16 = 2^64. */
  const U64Limit: nat := Pow(16, 16)

  /**
   * The key text of the record of directory (dev, ino), untruncated: two
   * non-empty numerals around the one '/' in the text.
   */
  function Key(dev: nat, ino: nat): (k: string)
    ensures 0 < |Hex(dev)| < |k| - 1 && k[|Hex(dev)|] == '/'
    ensures forall j :: 0 <= j < |k| && j != |Hex(dev)| ==> k[j] != '/'
  {
    HexHasNoSlash(dev);
    HexHasNoSlash(ino);
    Hex(dev) + "/" + Hex(ino)
  }

  /** Index of the first '/' in s, or |s| when there is none. */
  function SlashIndex(s: string): (i: nat)
    ensures i <= |s|
    ensures i < |s| ==> s[i] == '/'
    ensures forall j :: 0 <= j < i ==> s[j] != '/'
  {
    if s == [] then 0
    else if s[0] == '/' then 0
    else SlashIndex(s[1..]) + 1
  }

  /** Reads a key back into its (device, inode) pair; the inverse of Key. */
  function ParseKey(k: string): Option<(nat, nat)>
  {
    var i := SlashIndex(k);
    if i == |k| then None
    else
      var a, b := k[..i], k[i + 1..];
      if a != [] && b != [] && IsDigits(a, 16) && IsDigits(b, 16)
      then Some((ParseDigits(a, 16), ParseDigits(b, 16)))
      else None
  }

  lemma {:induction false} HexHasNoSlash(n: nat)
    ensures forall j :: 0 <= j < |Hex(n)| ==> Hex(n)[j] != '/'
  {
    var s := Hex(n);
    forall j | 0 <= j < |s| ensures s[j] != '/' {
      assert DigitValue(s[j], 16) >= 0;
    }
  }

  /** Every key parses back to the identity it was printed from. */
  lemma {:induction false} KeyRoundTrip(dev: nat, ino: nat)
    ensures ParseKey(Key(dev, ino)) == Some((dev, ino))
  {
    var k, a, b := Key(dev, ino), Hex(dev), Hex(ino);
    HexHasNoSlash(dev);
    assert k[|a|] == '/';
    assert forall j :: 0 <= j < |a| ==> k[j] == a[j];
    assert SlashIndex(k) == |a|;
    assert k[..|a|] == a;
    assert k[|a| + 1..] == b;
    ParseDigitsOfDigits(dev, 16);
    ParseDigitsOfDigits(ino, 16);
  }

  /** Distinct directories are stored under distinct keys. */
  lemma {:induction false} KeyInjective(dev1: nat, ino1: nat, dev2: nat, ino2: nat)
    requires Key(dev1, ino1) == Key(dev2, ino2)
    ensures dev1 == dev2 && ino1 == ino2
  {
    KeyRoundTrip(dev1, ino1);
    KeyRoundTrip(dev2, ino2);
  }

  /** What snprintf leaves behind: the text in the buffer and its return value. */
  datatype Printed = Printed(text: string, returned: nat)

  /**
   * snprintf(buf, size, ...) of a text `full`: at most size - 1 characters
   * are stored (then a terminating NUL), and the length of the whole text
   * is returned.
   */
  function Snprintf(full: string, size: nat): (p: Printed)
    requires size >= 1
    ensures p.returned == |full|
    ensures |p.text| < size && p.text <= full
    ensures |full| < size ==> p.text == full
  {
    Printed(if |full| < size then full else full[..size - 1], |full|)
  }

  /**
   * mkkey as written: the key printed into `char key[32]`. Its return value is
   * the length handed to db_put and db_get as the key length.
   */
  function MkKey(dev: nat, ino: nat): (p: Printed)
    ensures p.returned == |Key(dev, ino)|
    ensures |p.text| < KeyBufLen && p.text <= Key(dev, ino)
  {
    Snprintf(Key(dev, ino), KeyBufLen)
  }

  /** The buffer holds the exact key, and the returned length matches it, exactly when the key has at most 31 characters. */
  lemma MkKeyExactIff(dev: nat, ino: nat)
    ensures MkKey(dev, ino).returned == |MkKey(dev, ino).text| <==> |Key(dev, ino)| < KeyBufLen
    ensures |Key(dev, ino)| < KeyBufLen ==> MkKey(dev, ino).text == Key(dev, ino)
  {
  }

  /**
   * Both identities at the top of the 64-bit range: the key needs 33
   * characters, the buffer keeps 31, and 33 is passed on as the key length.
   */
  lemma MkKeyTruncates()
    ensures var m := MkKey(U64Limit - 1, U64Limit - 1);
      |m.text| == 31 && m.returned == 33 && m.text != Key(U64Limit - 1, U64Limit - 1)
  {
    TopHex(16);
  }

  /** The largest number of k hexadecimal digits prints as k letters 'f'. */
  lemma {:induction false} TopHex(k: nat)
    requires k >= 1
    ensures Hex(Pow(16, k) - 1) == seq(k, _ => 'f')
  {
    var n := Pow(16, k) - 1;
    if k > 1 {
      TopHex(k - 1);
      assert n / 16 == Pow(16, k - 1) - 1 && n % 16 == 15;
      assert Hex(n) == Hex(n / 16) + [DigitChar(15)];
    }
  }

  /**
   * The evidently intended key: for any 64-bit device and inode the text has
   * at most 33 characters, so a buffer of 34 bytes always holds it exactly.
   */
  lemma {:induction false} KeyFitsWideBuffer(dev: nat, ino: nat)
    requires dev < U64Limit && ino < U64Limit
    ensures |Key(dev, ino)| <= 33
    ensures Snprintf(Key(dev, ino), 34) == Printed(Key(dev, ino), |Key(dev, ino)|)
  {
    HexWidth(dev, 16);
    HexWidth(ino, 16);
  }

}
