/**
 * NUL-terminated character buffers as the C side of the watcher uses them.
 * A character stands for one byte of a path; '\0' is the terminator.
 */
module CStrings {

  /** The content of a C string: it never holds the terminator. */
  predicate NoNul(s: string) {
    forall k :: 0 <= k < |s| ==> s[k] != '\0'
  }

  /**
   * The string a buffer holds when read as a C string: everything before
   * its first NUL (the whole buffer if it has none).
   */
  function CStr(buf: seq<char>): (s: string)
    ensures NoNul(s)
    ensures s <= buf
    ensures |s| < |buf| ==> buf[|s|] == '\0'
  {
    if buf == [] || buf[0] == '\0' then [] else [buf[0]] + CStr(buf[1..])
  }

  /** The first `n` characters of `s`, or all of `s` when it is shorter. */
  function Prefix(s: string, n: nat): (r: string)
    ensures |r| == if |s| <= n then |s| else n
    ensures r <= s
  {
    if |s| <= n then s else s[..n]
  }

  /** `n` NUL characters. */
  function Nuls(n: nat): (r: seq<char>)
    ensures |r| == n && forall k :: 0 <= k < n ==> r[k] == '\0'
  {
    if n == 0 then [] else Nuls(n - 1) + ['\0']
  }

  /**
   * The `n` characters strncpy(dst, src, n) writes: the characters of `src`
   * up to its terminator, then NUL padding up to `n`.
   */
  function StrNCpy(src: string, n: nat): (r: seq<char>)
    ensures |r| == n
    ensures forall k :: 0 <= k < n ==> r[k] == if k < |src| then src[k] else '\0'
  {
    var p := Prefix(src, n);
    p + Nuls(n - |p|)
  }

  /** Reading back a terminated C string gives exactly its content, whatever follows the terminator. */
  lemma {:induction false} CStrOfTerminated(s: string, rest: seq<char>)
    requires NoNul(s)
    ensures CStr(s + ['\0'] + rest) == s
  {
    if s != [] {
      assert (s + ['\0'] + rest)[1..] == s[1..] + ['\0'] + rest;
      CStrOfTerminated(s[1..], rest);
    }
  }

  /**
   * A buffer filled by strncpy(dst, src, n) and terminated right after
   * holds the first `n` characters of `src`, whatever lies past the
   * terminator: the truncation get_filename and register_command rely on.
   */
  lemma StrNCpyReadBack(src: string, n: nat, rest: seq<char>)
    requires NoNul(src)
    ensures CStr(StrNCpy(src, n) + ['\0'] + rest) == Prefix(src, n)
  {
    var p := Prefix(src, n);
    assert NoNul(p);
    if |p| < n {
      var pad := Nuls(n - |p|);
      assert StrNCpy(src, n) + ['\0'] + rest == p + ['\0'] + (pad[1..] + ['\0'] + rest);
      CStrOfTerminated(p, pad[1..] + ['\0'] + rest);
    } else {
      assert StrNCpy(src, n) + ['\0'] + rest == p + ['\0'] + rest;
      CStrOfTerminated(p, rest);
    }
  }

  /**
   * strncpy(dst, src, n): writes `StrNCpy(src, n)` into the first `n`
   * cells of `dst` and leaves the others alone.
   */
  method StrNCopy(dst: array<char>, src: string, n: nat)
    requires NoNul(src)
    requires n <= dst.Length
    modifies dst
    ensures dst[..n] == StrNCpy(src, n)
    ensures dst[n..] == old(dst[n..])
  {
    var k := 0;
    while k < n
      invariant 0 <= k <= n
      invariant forall j :: 0 <= j < k ==> dst[j] == if j < |src| then src[j] else '\0'
      invariant dst[k..] == old(dst[k..])
    {
      dst[k] := if k < |src| then src[k] else '\0';
      k := k + 1;
    }
  }
}
