/** The names of a chunk: the file it becomes on a chunk server's disk, and its key in the DHT. */
module Naming {
  import opened Wrappers
  import opened Numerals

  function Last(s: string, c: char): (i: int)
    ensures -1 <= i < |s|
  {
    if s == [] then -1 else if s[|s| - 1] == c then |s| - 1 else Last(s[..|s| - 1], c)
  }

  predicate IsNumber(s: string) { s != [] && AllDigits(10, s) }

  /** A component that `normalize` leaves alone. */
  predicate ProperName(name: string) { name != "" && name != "." && name != ".." }

  /** An absolute, normalised path: a slash before every component, and every component proper. */
  predicate ProperUid(uid: string)
    decreases |uid|
  {
    && uid != [] && uid[0] == '/'
    && var last := Last(uid, '/');
       last >= 0 && ProperName(uid[last + 1..]) && (last == 0 || ProperUid(uid[..last]))
  }

  function Parent(uid: string): string
    requires ProperUid(uid)
  {
    uid[..Last(uid, '/')]
  }

  function Leaf(uid: string): string
    requires ProperUid(uid)
  {
    uid[Last(uid, '/') + 1..]
  }

  /** prefix / parent / ("__" leaf "__" cuid). */
  function Representation(prefix: string, uid: string, cuid: nat): string
    requires ProperUid(uid)
  {
    prefix + Parent(uid) + "/" + ("__" + Leaf(uid) + "__" + Decimal(cuid))
  }

  /** The key under which the location of a chunk is published. */
  function DhtKey(uid: string, cuid: nat): string {
    Decimal(cuid) + uid
  }

  // ---------- taking names apart again ----------

  lemma {:induction false} LastIs(a: string, c: char, b: string)
    requires c !in b
    ensures Last(a + [c] + b, c) == |a|
  {
    var s := a + [c] + b;
    if b == [] {
      assert s[|s| - 1] == c;
    } else {
      var b' := b[..|b| - 1];
      assert s[..|s| - 1] == a + [c] + b' && s[|s| - 1] == b[|b| - 1];
      LastIs(a, c, b');
    }
  }

  lemma {:induction false} NothingAfterLast(s: string, c: char)
    ensures -1 <= Last(s, c) < |s|
    ensures Last(s, c) >= 0 ==> s[Last(s, c)] == c
    ensures forall i :: Last(s, c) < i < |s| ==> s[i] != c
  {
    if s != [] && s[|s| - 1] != c {
      NothingAfterLast(s[..|s| - 1], c);
    }
  }

  lemma UidSplits(uid: string)
    requires ProperUid(uid)
    ensures uid == Parent(uid) + "/" + Leaf(uid) && '/' !in Leaf(uid)
  {
    NothingAfterLast(uid, '/');
  }

  lemma UidIsBelowRoot(uid: string)
    requires ProperUid(uid)
    ensures forall prefix: string :: prefix + "/" <= prefix + Parent(uid) + "/"
  {
    UidSplits(uid);
    forall prefix: string
      ensures prefix + "/" <= prefix + Parent(uid) + "/"
    {
      var whole := prefix + Parent(uid) + "/";
      assert Parent(uid) != [] ==> Parent(uid)[0] == '/';
      assert whole[..|prefix| + 1] == prefix + "/";
    }
  }

  lemma DecimalHasNo(c: char, n: nat)
    requires !IsDigit(10, c)
    ensures c !in Decimal(n)
  {
    NumeralRoundTrip(10, n);
  }

  /**
   Reading a file name of a chunk server: strip the storage prefix, split at the
   last slash, and in what follows it at the two underscores before the number.
   */
  function ParseName(prefix: string, name: string): Option<(string, nat)> {
    if !(prefix <= name) then None
    else
      var rest := name[|prefix|..];
      var slash := Last(rest, '/');
      if slash < 0 then None
      else
        var file := rest[slash + 1..];
        var last := Last(file, '_');
        if last < 3 || file[..2] != "__" || file[last - 1] != '_' || !IsNumber(file[last + 1..]) then None
        else Some((rest[..slash] + "/" + file[2..last - 1], Value(10, file[last + 1..])))
  }

  lemma FileParts(leaf: string, number: string)
    requires '_' !in number
    ensures var file := "__" + leaf + "__" + number; var last := Last(file, '_');
      && last == |leaf| + 3 && file[..2] == "__" && file[last - 1] == '_'
      && file[2..last - 1] == leaf && file[last + 1..] == number
  {
    var file, front := "__" + leaf + "__" + number, "__" + leaf + "_";
    assert file == front + ['_'] + number;
    LastIs(front, '_', number);
    hide Last;
  }

  /** Where the file of a chunk lies: under the storage prefix, in the directory of its uid. */
  lemma RepresentationIsPlaced(prefix: string, uid: string, cuid: nat)
    requires ProperUid(uid)
    ensures var file := "__" + Leaf(uid) + "__" + Decimal(cuid);
      && Representation(prefix, uid, cuid) == prefix + Parent(uid) + "/" + file && '/' !in file
    ensures prefix + Parent(uid) + "/" <= Representation(prefix, uid, cuid)
  {
    UidSplits(uid);
    DecimalHasNo('/', cuid);
    hide Numeral, Last, ProperUid;
  }

  /** What its name says: which chunk it holds. */
  lemma RepresentationRoundTrip(prefix: string, uid: string, cuid: nat)
    requires ProperUid(uid)
    ensures ParseName(prefix, Representation(prefix, uid, cuid)) == Some((uid, cuid))
  {
    hide Numeral, Value, Last, ProperUid, Representation;
    UidSplits(uid);
    DecimalHasNo('_', cuid);
    NumeralRoundTrip(10, cuid);
    RepresentationIsPlaced(prefix, uid, cuid);
    FileParts(Leaf(uid), Decimal(cuid));
    var name, file := Representation(prefix, uid, cuid), "__" + Leaf(uid) + "__" + Decimal(cuid);
    var rest := Parent(uid) + "/" + file;
    assert name == prefix + rest;
    assert name[..|prefix|] == prefix && name[|prefix|..] == rest;
    LastIs(Parent(uid), '/', file);
    assert rest[..|Parent(uid)|] == Parent(uid) && rest[|Parent(uid)| + 1..] == file;
  }

  /** Different chunks have different files, even for leaves that look like chunk names themselves. */
  lemma RepresentationIsInjective(prefix: string, u: string, m: nat, v: string, n: nat)
    requires ProperUid(u) && ProperUid(v)
    requires Representation(prefix, u, m) == Representation(prefix, v, n)
    ensures u == v && m == n
  {
    hide Representation, ParseName, ProperUid;
    RepresentationRoundTrip(prefix, u, m);
    RepresentationRoundTrip(prefix, v, n);
  }

  predicate Absolute(uid: string) { uid != [] && uid[0] == '/' }

  predicate StartsWithDigit(s: string) { s != [] && IsDigit(10, s[0]) }

  /** u is v with some more digits in front, and these digits continue the decimal form of m to that of n. */
  predicate Shifted(u: string, m: nat, v: string, n: nat) {
    var d := |u| - |v|;
    d > 0 && u == u[..d] + v && IsNumber(u[..d]) && Decimal(n) == Decimal(m) + u[..d]
  }

  /** Two different chunks share a DHT key exactly if the uid of one is a string of digits followed by the uid of the other. */
  lemma DhtKeysCollideExactly(u: string, m: nat, v: string, n: nat)
    ensures DhtKey(u, m) == DhtKey(v, n) <==> (u == v && m == n) || Shifted(u, m, v, n) || Shifted(v, n, u, m)
  {
    if Shifted(u, m, v, n) {
      ShiftedCollide(u, m, v, n);
    } else if Shifted(v, n, u, m) {
      ShiftedCollide(v, n, u, m);
    } else if DhtKey(u, m) == DhtKey(v, n) {
      if |u| >= |v| {
        CollidingAreShifted(u, m, v, n);
      } else {
        CollidingAreShifted(v, n, u, m);
      }
    }
  }

  lemma ShiftedCollide(u: string, m: nat, v: string, n: nat)
    requires Shifted(u, m, v, n)
    ensures DhtKey(u, m) == DhtKey(v, n)
  {
    var d := u[..|u| - |v|];
    assert Decimal(m) + (d + v) == (Decimal(m) + d) + v;
  }

  lemma CollidingAreShifted(u: string, m: nat, v: string, n: nat)
    requires DhtKey(u, m) == DhtKey(v, n) && |u| >= |v|
    ensures (u == v && m == n) || Shifted(u, m, v, n)
  {
    hide Numeral;
    var s := DhtKey(u, m);
    var a, b := |Decimal(m)|, |Decimal(n)|;
    assert s == Decimal(m) + u == Decimal(n) + v && a <= b;
    assert s[a..] == u && s[..a] == Decimal(m) && s[b..] == v && s[..b] == Decimal(n);
    NumeralRoundTrip(10, n);
    var d := u[..|u| - |v|];
    assert d == s[a..b] == Decimal(n)[a..];
    assert Decimal(n) == s[..a] + s[a..b];
    if a == b {
      DecimalIsInjective(m, n);
    } else {
      assert u == d + v;
    }
  }

  /** Chunks whose uids do not start with a digit, as no absolute path does, are published under different keys. */
  lemma DhtKeyIsInjective(u: string, m: nat, v: string, n: nat)
    requires !StartsWithDigit(u) && !StartsWithDigit(v) && DhtKey(u, m) == DhtKey(v, n)
    ensures u == v && m == n
  {
    DhtKeysCollideExactly(u, m, v, n);
  }
}
