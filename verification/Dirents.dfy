/** Directory entries: a directory is a file of 16-byte records, each an inode number (0 for a free record) and a
  name. */
module Dirents {
  import opened Blocks
  import opened Files

  const DIRSIZ := 14
  const DIRENT := 16
  const INUM_RANGE := 0x1_0000

  /** The string a buffer spells: up to its first NUL, and at most `n` bytes. */
  function Cut(s: seq<Byte>, n: nat): (r: seq<Byte>)
    ensures |r| <= n && |r| <= |s|
  {
    if n == 0 || s == [] || s[0] == 0 then [] else [s[0]] + Cut(s[1..], n - 1)
  }

  /** A buffer that `strncmp` and `strncpy` can be given: they do not read past its end. */
  predicate Readable(s: seq<Byte>, n: nat) {
    |s| >= n || exists k: nat :: k < |s| && s[k] == 0
  }

  lemma ReadableRest(s: seq<Byte>, n: nat)
    requires Readable(s, n) && n > 0 && |s| > 0 && s[0] != 0
    ensures Readable(s[1..], n - 1)
  {
    if k: nat :| k < |s| && s[k] == 0 {
      assert s[1..][k - 1] == 0;
    }
  }

  /** `strncmp` says zero exactly when the two buffers spell the same string. */
  method Strncmp(p: seq<Byte>, q: seq<Byte>, n: nat) returns (r: int)
    requires Readable(p, n) && Readable(q, n)
    ensures r == 0 <==> Cut(p, n) == Cut(q, n)
  {
    var a, b, m := p, q, n;
    while m > 0 && a[0] != 0 && a[0] == b[0]
      invariant 0 <= m <= n && Readable(a, m) && Readable(b, m)
      invariant Cut(a, m) == Cut(b, m) <==> Cut(p, n) == Cut(q, n)
      decreases m
    {
      ReadableRest(a, m);
      ReadableRest(b, m);
      CutStep(a, b, m);
      a, b, m := a[1..], b[1..], m - 1;
    }
    if m == 0 {
      return 0;
    }
    if a[0] != b[0] {
      CutDiffers(a, b, m);
    }
    return a[0] as int - b[0] as int;
  }

  lemma CutStep(a: seq<Byte>, b: seq<Byte>, m: nat)
    requires m > 0 && |a| > 0 && |b| > 0 && a[0] == b[0] != 0
    ensures Cut(a, m) == Cut(b, m) <==> Cut(a[1..], m - 1) == Cut(b[1..], m - 1)
  {
    var x, y := Cut(a[1..], m - 1), Cut(b[1..], m - 1);
    assert ([a[0]] + x)[1..] == x && ([b[0]] + y)[1..] == y;
  }

  lemma CutDiffers(a: seq<Byte>, b: seq<Byte>, m: nat)
    requires m > 0 && |a| > 0 && |b| > 0 && a[0] != b[0]
    ensures Cut(a, m) != Cut(b, m)
  {
    assert a[0] != 0 ==> Cut(a, m)[0] == a[0];
    assert b[0] != 0 ==> Cut(b, m)[0] == b[0];
  }

  /** `strncpy` fills `n` bytes: the string, and zeros after it. */
  method Strncpy(t: seq<Byte>, n: nat) returns (s: seq<Byte>)
    requires Readable(t, n)
    ensures |s| == n && s == Padded(Cut(t, n), n) && Cut(s, n) == Cut(t, n)
  {
    s := [];
    var u, m := t, n;
    while m > 0 && u[0] != 0
      invariant 0 <= m <= n && Readable(u, m) && Cut(t, n) == s + Cut(u, m) && |s| == n - m
      decreases m
    {
      ReadableRest(u, m);
      s, u, m := s + [u[0]], u[1..], m - 1;
    }
    ghost var name := Cut(t, n);
    assert s == name;
    while m > 0
      invariant 0 <= m <= n && |s| == n - m && |name| <= |s| && s[..|name|] == name
      invariant forall k: nat :: |name| <= k < |s| ==> s[k] == 0
    {
      s, m := s + [0], m - 1;
    }
    assert s == Padded(name, n);
    CutOfPadded(t, n, n);
  }

  /** A string with zeros after it. */
  function Padded(name: seq<Byte>, n: nat): (r: seq<Byte>)
    requires |name| <= n
    ensures |r| == n && r[..|name|] == name && forall k: nat :: |name| <= k < n ==> r[k] == 0
  {
    name + seq(n - |name|, _ => 0)
  }

  lemma {:induction false} CutOfPadded(t: seq<Byte>, n: nat, m: nat)
    requires n <= m
    ensures Cut(Padded(Cut(t, n), m), n) == Cut(t, n)
  {
    var name := Cut(t, n);
    if name != [] {
      CutOfPadded(t[1..], n - 1, m - 1);
      assert Padded(name, m)[1..] == Padded(name[1..], m - 1);
    }
  }

  // ----- records

  datatype Dirent = Dirent(inum: nat, name: seq<Byte>)

  function Decode(b: seq<Byte>): Dirent
    requires |b| == DIRENT
  {
    Dirent(b[0] as int + 0x100 * b[1] as int, Cut(b[2..], DIRSIZ))
  }

  function Encode(inum: nat, name: seq<Byte>): (b: seq<Byte>)
    requires inum < INUM_RANGE && |name| == DIRSIZ
    ensures |b| == DIRENT && b[0] as int + 0x100 * b[1] as int == inum && b[2..] == name
  {
    [inum % 0x100, inum / 0x100] + name
  }

  lemma DirentRoundTrip(inum: nat, name: seq<Byte>)
    requires inum < INUM_RANGE && |name| == DIRSIZ
    ensures Decode(Encode(inum, name)) == Dirent(inum, Cut(name, DIRSIZ))
  {
    assert Encode(inum, name)[2..] == name;
  }

  /** The record that starts at byte `16 * k`. */
  function EntryAt(bytes: seq<Byte>, k: nat): Dirent
    requires DIRENT * k + DIRENT <= |bytes|
  {
    Decode(bytes[DIRENT * k..DIRENT * k + DIRENT])
  }

  /** All records of a directory; bytes that do not fill a record are none. */
  function Entries(bytes: seq<Byte>): (es: seq<Dirent>)
    ensures |es| == |bytes| / DIRENT
    ensures forall k: nat :: k < |es| ==> es[k] == EntryAt(bytes, k)
  {
    seq(|bytes| / DIRENT, k requires 0 <= k < |bytes| / DIRENT => EntryAt(bytes, k))
  }

  /** The entry that a name is found at: the first live one with that name. */
  predicate Names(e: Dirent, name: seq<Byte>) {
    e.inum != 0 && e.name == name
  }

  ghost predicate FoundAt(es: seq<Dirent>, name: seq<Byte>, k: nat) {
    k < |es| && Names(es[k], name) && forall j: nat :: j < k ==> !Names(es[j], name)
  }

  ghost predicate Absent(es: seq<Dirent>, name: seq<Byte>) {
    forall j: nat :: j < |es| ==> !Names(es[j], name)
  }

  lemma FoundOnce(es: seq<Dirent>, name: seq<Byte>, k: nat)
    requires FoundAt(es, name, k)
    ensures !Absent(es, name) && forall j: nat :: FoundAt(es, name, j) ==> j == k
  {
  }

  /** Where a new entry goes: the first free record, or the end. */
  ghost predicate FreeAt(es: seq<Dirent>, k: nat) {
    k <= |es| && (k < |es| ==> es[k].inum == 0) && forall j: nat :: j < k ==> es[j].inum != 0
  }

  /** The directory with record `k` set, which may be one past the end. */
  function Put(es: seq<Dirent>, k: nat, e: Dirent): seq<Dirent>
    requires k <= |es|
  {
    if k < |es| then es[k := e] else es + [e]
  }

  /** Writing 16 bytes where record `k` is sets that record. */
  lemma EntriesAfterWrite(bytes: seq<Byte>, k: nat, b: seq<Byte>)
    requires |bytes| % DIRENT == 0 && DIRENT * k <= |bytes| && |b| == DIRENT
    ensures Entries(Spliced(bytes, DIRENT * k, b)) == Put(Entries(bytes), k, Decode(b))
  {
    var now := Spliced(bytes, DIRENT * k, b);
    var es := Put(Entries(bytes), k, Decode(b));
    assert |now| / DIRENT == |es|;
    forall j: nat | j < |es|
      ensures EntryAt(now, j) == es[j]
    {
      EntryAfterWrite(bytes, k, b, j);
    }
  }

  lemma EntryAfterWrite(bytes: seq<Byte>, k: nat, b: seq<Byte>, j: nat)
    requires DIRENT * k <= |bytes| && |b| == DIRENT && DIRENT * j + DIRENT <= |Spliced(bytes, DIRENT * k, b)|
    requires j == k || DIRENT * j + DIRENT <= |bytes|
    ensures EntryAt(Spliced(bytes, DIRENT * k, b), j) == if j == k then Decode(b) else EntryAt(bytes, j)
  {
    var now := Spliced(bytes, DIRENT * k, b);
    var lo := DIRENT * j;
    if j == k {
      assert now[lo..lo + DIRENT] == b;
    } else {
      assert now[lo..lo + DIRENT] == bytes[lo..lo + DIRENT];
    }
  }
}
