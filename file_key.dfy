/** The key that identifies an open file on Unix: the device and inode numbers that
    `fstat` reports, with Java's `equals` and `hashCode` over them. */
module FileKeys {

  /** The low 32 bits of a Java `long`, as a Java `int` cast keeps them. */
  function Low32(x: bv64): bv32 {
    (x & 0xFFFF_FFFF) as bv32
  }

  function High32(x: bv64): bv32 {
    (x >> 32) as bv32
  }

  /** `(int)(x ^ (x >>> 32))`: the long folded onto 32 bits. */
  function Fold(x: bv64): bv32 {
    ((x ^ (x >> 32)) & 0xFFFF_FFFF) as bv32
  }

  /** The fold is the low half XOR the high half. */
  lemma FoldHalves(x: bv64)
    ensures Fold(x) == Low32(x) ^ High32(x)
  {
    FoldBits(x, x >> 32);
  }

  lemma FoldBits(x: bv64, h: bv64)
    requires h == x >> 32
    ensures ((x ^ h) & 0xFFFF_FFFF) as bv32 == (x & 0xFFFF_FFFF) as bv32 ^ h as bv32
  {
  }

  /** The hash of a device and inode number: their folds added as Java `int`s, which wrap. */
  function Hash(dev: bv64, ino: bv64): bv32 {
    Fold(dev) + Fold(ino)
  }

  /** A file key; its fields are set once, from the file's status. */
  class FileKey {
    const stDev: bv64
    const stIno: bv64

    constructor (dev: bv64, ino: bv64)
      ensures stDev == dev && stIno == ino
    {
      stDev := dev;
      stIno := ino;
    }

    /** The hash of the two fields. */
    function HashCode(): bv32 {
      Hash(stDev, stIno)
    }

    /** The same object, or another file key with the same device and inode. */
    predicate Equals(obj: object?) {
      obj == this || (obj is FileKey && (obj as FileKey).stDev == stDev && (obj as FileKey).stIno == stIno)
    }
  }

  /** The hash is the low 32 bits of the exact sum of the two folds. */
  lemma HashCodeWraps(k: FileKey)
    ensures k.HashCode() == Low32(Fold(k.stDev) as bv64 + Fold(k.stIno) as bv64)
  {
    AddWraps(Fold(k.stDev), Fold(k.stIno));
  }

  lemma AddWraps(x: bv32, y: bv32)
    ensures x + y == ((x as bv64 + y as bv64) & 0xFFFF_FFFF) as bv32
  {
  }

  lemma EqualsReflexive(k: FileKey)
    ensures k.Equals(k)
  {
  }

  /** Two keys are equal exactly when both their device and their inode numbers are. */
  lemma EqualsIffFields(k: FileKey, other: FileKey)
    ensures k.Equals(other) <==> k.stDev == other.stDev && k.stIno == other.stIno
  {
  }

  /** Nothing but a file key equals a file key; null does not. */
  lemma EqualsOnlyKeys(k: FileKey, obj: object?)
    requires !(obj is FileKey)
    ensures !k.Equals(obj)
  {
  }

  lemma EqualsSymmetric(k: FileKey, other: FileKey)
    ensures k.Equals(other) <==> other.Equals(k)
  {
  }

  lemma EqualsTransitive(a: FileKey, b: FileKey, c: FileKey)
    requires a.Equals(b) && b.Equals(c)
    ensures a.Equals(c)
  {
  }

  /** Equal keys hash alike. */
  lemma EqualKeysHashAlike(k: FileKey, obj: object?)
    requires k.Equals(obj) && obj is FileKey
    ensures k.HashCode() == (obj as FileKey).HashCode()
  {
    var other := obj as FileKey;
    assert other.stDev == k.stDev && other.stIno == k.stIno;
  }
}
