/**
  Credential classes, epochs, and the strings and hash inputs built from them: revocation keys,
  the key-derivation info string and the nullifier preimage.
 */
module Names {
  import opened Bytes

  predicate IsDigit(c: char) {
    '0' <= c <= '9'
  }

  /** ^\d{4}-\d{2}$ */
  predicate ValidEpoch(s: string) {
    && |s| == 7 && s[4] == '-'
    && forall i :: 0 <= i < 7 && i != 4 ==> IsDigit(s[i])
  }

  predicate IsClassChar(c: char) {
    'A' <= c <= 'Z' || 'a' <= c <= 'z' || IsDigit(c) || c == '_' || c == '-'
  }

  /** ^[A-Za-z0-9_\-]{1,64}$ */
  predicate ValidClass(s: string) {
    1 <= |s| <= 64 && forall i :: 0 <= i < |s| ==> IsClassChar(s[i])
  }

  /** The epoch of a revocation: empty means every epoch of the class. */
  predicate ValidScope(epoch: string) {
    epoch == "" || ValidEpoch(epoch)
  }

  /** Single-byte characters, none of them NUL. */
  predicate Clean(s: string) {
    forall i :: 0 <= i < |s| ==> 0 < s[i] as int < 256
  }

  lemma ValidIsClean(s: string)
    requires ValidEpoch(s) || ValidClass(s)
    ensures Clean(s) && ':' !in s && s != ""
  {}

  // ----- The two patterns, spelled out -----

  const DIGITS: string := "0123456789"
  const UPPER: string := "ABCDEFGHIJKLMNOPQRSTUVWXYZ"
  const LOWER: string := "abcdefghijklmnopqrstuvwxyz"
  const ALPHABET: string := UPPER + LOWER + DIGITS + "_-"

  lemma DigitExact(c: char)
    ensures IsDigit(c) <==> c in DIGITS
  {
    assert |DIGITS| == 10 && forall i :: 0 <= i < 10 ==> DIGITS[i] == '0' + i as char;
    if IsDigit(c) {
      assert DIGITS[c as int - '0' as int] == c;
    }
  }

  lemma UpperExact(c: char)
    ensures 'A' <= c <= 'Z' <==> c in UPPER
  {
    assert c in UPPER ==> 'A' <= c <= 'Z';
    if 'A' <= c <= 'Z' {
      assert UPPER[c as int - 'A' as int] == c;
    }
  }

  lemma LowerExact(c: char)
    ensures 'a' <= c <= 'z' <==> c in LOWER
  {
    assert c in LOWER ==> 'a' <= c <= 'z';
    if 'a' <= c <= 'z' {
      assert LOWER[c as int - 'a' as int] == c;
    }
  }

  lemma ClassCharExact(c: char)
    ensures IsClassChar(c) <==> c in ALPHABET
  {
    DigitExact(c);
    UpperExact(c);
    LowerExact(c);
    assert c in "_-" <==> c == '_' || c == '-';
  }

  /** The classes are the texts of 1 to 64 characters of the alphabet, all of them. */
  lemma ClassExact(s: string)
    ensures ValidClass(s) <==> 1 <= |s| <= 64 && forall i :: 0 <= i < |s| ==> s[i] in ALPHABET
  {
    forall i | 0 <= i < |s| ensures IsClassChar(s[i]) <==> s[i] in ALPHABET {
      ClassCharExact(s[i]);
    }
  }

  predicate AllDigits(s: string) {
    forall i :: 0 <= i < |s| ==> s[i] in DIGITS
  }

  /** The epochs are four digits, a hyphen and two digits, all of them. */
  lemma EpochExact(s: string)
    ensures ValidEpoch(s) <==> exists y, m :: |y| == 4 && |m| == 2 && AllDigits(y) && AllDigits(m) && s == y + "-" + m
  {
    if ValidEpoch(s) {
      var y, m := s[..4], s[5..];
      forall i | 0 <= i < 4 ensures y[i] in DIGITS {
        DigitExact(s[i]);
      }
      forall i | 0 <= i < 2 ensures m[i] in DIGITS {
        DigitExact(s[i + 5]);
      }
      assert s == y + "-" + m;
    }
    if y, m :| |y| == 4 && |m| == 2 && AllDigits(y) && AllDigits(m) && s == y + "-" + m {
      forall i | 0 <= i < 7 && i != 4 ensures IsDigit(s[i]) {
        DigitExact(s[i]);
        assert s[i] == if i < 4 then y[i] else m[i - 5];
      }
    }
  }

  // ----- Separators -----

  /** Fields with a separator between them. */
  function Joined<T>(fields: seq<seq<T>>, sep: T): seq<T> {
    if fields == [] then []
    else if |fields| == 1 then fields[0]
    else fields[0] + [sep] + Joined(fields[1..], sep)
  }

  lemma JoinTwo<T>(a: seq<T>, b: seq<T>, sep: T)
    ensures Joined([a, b], sep) == a + [sep] + b
  {
    assert [a, b][1..] == [b];
  }

  lemma JoinThree<T>(a: seq<T>, b: seq<T>, c: seq<T>, sep: T)
    ensures Joined([a, b, c], sep) == a + [sep] + b + [sep] + c
  {
    JoinTwo(b, c, sep);
    assert [a, b, c][1..] == [b, c];
  }

  lemma JoinFour<T>(a: seq<T>, b: seq<T>, c: seq<T>, d: seq<T>, sep: T)
    ensures Joined([a, b, c, d], sep) == a + [sep] + b + [sep] + c + [sep] + d
  {
    JoinThree(b, c, d, sep);
    assert [a, b, c, d][1..] == [b, c, d];
  }

  lemma {:induction false} SplitAtSeparator<T>(sep: T, a: seq<T>, x: seq<T>, b: seq<T>, y: seq<T>)
    requires sep !in a && sep !in b && a + [sep] + x == b + [sep] + y
    ensures a == b && x == y
  {
    var s := a + [sep] + x;
    assert s[|a|] == sep && s[|b|] == sep;
    assert forall i :: 0 <= i < |a| ==> s[i] == a[i];
    assert forall i :: 0 <= i < |b| ==> s[i] == b[i];
    assert |a| == |b|;
    assert a == s[..|a|] && b == s[..|b|];
    assert x == s[|a| + 1..] && y == s[|b| + 1..];
  }

  lemma PrefixCancel<T>(p: seq<T>, x: seq<T>, y: seq<T>)
    requires p + x == p + y
    ensures x == y
  {
    assert x == (p + x)[|p|..] && y == (p + y)[|p|..];
  }

  // ----- Revocation keys -----

  function MemoryKey(class_: string, epoch: string): string {
    if epoch == "" then "revoke:" + class_ else "revoke:" + class_ + ":" + epoch
  }

  function RedisKey(class_: string, epoch: string): string {
    if epoch == "" then "revoke:" + class_ + ":all" else "revoke:" + class_ + ":" + epoch
  }

  /** On colon-free classes the in-memory key determines class and scope. */
  lemma MemoryKeyInjective(c: string, e: string, c': string, e': string)
    requires ':' !in c && ':' !in c'
    ensures MemoryKey(c, e) == MemoryKey(c', e') <==> c == c' && e == e'
  {
    if MemoryKey(c, e) == MemoryKey(c', e') {
      var t := if e == "" then c else c + [':'] + e;
      var t' := if e' == "" then c' else c' + [':'] + e';
      assert MemoryKey(c, e) == "revoke:" + t && MemoryKey(c', e') == "revoke:" + t';
      PrefixCancel("revoke:", t, t');
      assert e != "" ==> t[|c|] == ':';
      assert e' != "" ==> t'[|c'|] == ':';
      assert e == "" <==> e' == "";
      if e != "" {
        SplitAtSeparator(':', c, e, c', e');
      }
    }
  }

  /** The Redis key reads the class-wide scope as the epoch "all", which no valid epoch is. */
  lemma RedisKeyInjective(c: string, e: string, c': string, e': string)
    requires ':' !in c && ':' !in c'
    ensures RedisKey(c, e) == RedisKey(c', e')
       <==> c == c' && (e == e' || (e == "" && e' == "all") || (e == "all" && e' == ""))
  {
    var f := if e == "" then "all" else e;
    var f' := if e' == "" then "all" else e';
    assert RedisKey(c, e) == "revoke:" + (c + [':'] + f);
    assert RedisKey(c', e') == "revoke:" + (c' + [':'] + f');
    if RedisKey(c, e) == RedisKey(c', e') {
      PrefixCancel("revoke:", c + [':'] + f, c' + [':'] + f');
      SplitAtSeparator(':', c, f, c', f');
    }
  }

  lemma ValidKeys(c: string, e: string, c': string, e': string)
    requires ValidClass(c) && ValidScope(e) && ValidClass(c') && ValidScope(e')
    ensures MemoryKey(c, e) == MemoryKey(c', e') <==> c == c' && e == e'
    ensures RedisKey(c, e) == RedisKey(c', e') <==> c == c' && e == e'
  {
    MemoryKeyInjective(c, e, c', e');
    RedisKeyInjective(c, e, c', e');
    assert |"all"| == 3;
  }

  // ----- Key derivation info (pkg/crypto/derive.go) -----

  const NUL: char := '\0'

  function Info(epoch: string, class_: string): string {
    "BCIS" + "\0" + "SIGNING_KEY" + "\0" + epoch + "\0" + class_
  }

  /** Different contexts are derived from different info strings. */
  lemma InfoInjective(e: string, c: string, e': string, c': string)
    requires Clean(e) && Clean(e')
    ensures Info(e, c) == Info(e', c') <==> e == e' && c == c'
  {
    var p := "BCIS" + "\0" + "SIGNING_KEY" + "\0";
    assert Info(e, c) == p + (e + [NUL] + c);
    assert Info(e', c') == p + (e' + [NUL] + c');
    if Info(e, c) == Info(e', c') {
      PrefixCancel(p, e + [NUL] + c, e' + [NUL] + c');
      SplitAtSeparator(NUL, e, c, e', c');
    }
  }

  // ----- Nullifier preimage (pkg/crypto/nullifier.go) -----

  function Preimage(epoch: string, class_: string, serialized: seq<byte>): seq<byte> {
    Text("BCIS-V1\0") + Text(epoch) + [0] + Text(class_) + [0] + serialized + [1]
  }

  /** SHA-256 as an accumulating writer; the digest function itself is a parameter. */
  class Hasher {
    var written: seq<byte>

    constructor ()
      ensures written == []
    {
      written := [];
    }

    method Write(b: seq<byte>)
      modifies this
      ensures written == old(written) + b
    {
      written := written + b;
    }
  }

  method ComputeNullifier<D>(digest: seq<byte> -> D, epoch: string, class_: string, serialized: seq<byte>)
    returns (n: D)
    ensures n == digest(Preimage(epoch, class_, serialized))
  {
    var h := new Hasher();
    h.Write(Text("BCIS-V1\0"));
    h.Write(Text(epoch));
    h.Write([0]);
    h.Write(Text(class_));
    h.Write([0]);
    h.Write(serialized);
    h.Write([1]);
    assert h.written == Preimage(epoch, class_, serialized);
    n := digest(h.written);
  }

  lemma CleanText(s: string, t: string)
    requires Clean(s) && Clean(t)
    ensures 0 !in Text(s)
    ensures Text(s) == Text(t) <==> s == t
  {
    forall i | 0 <= i < |s| ensures Text(s)[i] != 0 {
      assert 0 < s[i] as int < 256;
    }
    if Text(s) == Text(t) {
      forall i | 0 <= i < |s| ensures s[i] == t[i] {
        assert Text(s)[i] == Text(t)[i];
        assert 0 < s[i] as int < 256 && 0 < t[i] as int < 256;
      }
    }
  }

  lemma PreimageShape(e: string, c: string, z: seq<byte>)
    ensures Preimage(e, c, z) == Text("BCIS-V1\0") + (Text(e) + [0] + (Text(c) + [0] + (z + [1])))
  {}

  /** The preimage binds epoch, class and signature: the two NUL bytes separate what varies in length. */
  lemma PreimageInjective(e: string, c: string, z: seq<byte>, e': string, c': string, z': seq<byte>)
    requires Clean(e) && Clean(c) && Clean(e') && Clean(c')
    ensures Preimage(e, c, z) == Preimage(e', c', z') <==> e == e' && c == c' && z == z'
  {
    if Preimage(e, c, z) == Preimage(e', c', z') {
      PreimageShape(e, c, z);
      PreimageShape(e', c', z');
      CleanText(e, e');
      CleanText(e', e);
      CleanText(c, c');
      CleanText(c', c);
      var t, t' := Text(c) + [0] + (z + [1]), Text(c') + [0] + (z' + [1]);
      PrefixCancel(Text("BCIS-V1\0"), Text(e) + [0] + t, Text(e') + [0] + t');
      SplitAtSeparator(0, Text(e), t, Text(e'), t');
      SplitAtSeparator(0, Text(c), z + [1], Text(c'), z' + [1]);
      assert z == (z + [1])[..|z|] && z' == (z' + [1])[..|z'|];
    }
  }

  // ----- The layouts, field by field -----

  /** Revocation keys are fields between colons, the key-derivation info fields between NULs. */
  lemma KeyLayouts(c: string, e: string)
    ensures MemoryKey(c, "") == Joined(["revoke", c], ':') && RedisKey(c, "") == Joined(["revoke", c, "all"], ':')
    ensures e != "" ==> MemoryKey(c, e) == RedisKey(c, e) == Joined(["revoke", c, e], ':')
    ensures Info(e, c) == Joined(["BCIS", "SIGNING_KEY", e, c], 0 as char)
  {
    JoinTwo("revoke", c, ':');
    JoinThree("revoke", c, "all", ':');
    JoinThree("revoke", c, e, ':');
    JoinFour("BCIS", "SIGNING_KEY", e, c, 0 as char);
    assert "revoke:" == "revoke" + [':'] && ":all" == [':'] + "all" && ":" == [':'] && "\0" == [0 as char];
  }

  /** The nullifier preimage is four fields between NUL bytes, the last the signature and a version byte. */
  lemma PreimageLayout(e: string, c: string, z: seq<byte>)
    ensures Preimage(e, c, z) == Joined([Text("BCIS-V1"), Text(e), Text(c), z + [1]], 0)
  {
    JoinFour(Text("BCIS-V1"), Text(e), Text(c), z + [1], 0);
    assert Text("BCIS-V1\0") == Text("BCIS-V1") + [0];
  }
}
