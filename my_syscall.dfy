/*
 * The jgraham5 system call of src/PA2/my_syscall/my_syscall.c: it measures
 * the user string with strnlen_user (at most 32 bytes, terminator
 * included), rejects a null pointer or a bad length with -1, and otherwise
 * rewrites every lower-case a, e, i, o, u and y among those bytes to 'j' and
 * returns how many it rewrote. The user buffer is an array of characters;
 * the kernel's user-copy helpers become copies between it and a fresh
 * kernel buffer.
 */
module MySyscall {

  /** The `count` argument the call passes to strnlen_user. */
  const MAX_LEN: int := 32

  /** The characters the loop rewrites (lower case only). */
  predicate IsVowel(c: char) {
    c == 'a' || c == 'e' || c == 'i' || c == 'o' || c == 'u' || c == 'y'
  }

  /**
   * strnlen_user(mem, count) as the kernel documents it: the length of the
   * string including its terminating NUL when that NUL lies among the first
   * `count` bytes, `count + 1` when it does not, and 0 when the scan runs
   * off the accessible memory first (a fault).
   */
  function StrnlenUser(mem: seq<char>, count: nat): (len: nat)
    ensures len == 0 || 1 <= len <= count + 1
    ensures len == count + 1 ==> count <= |mem| && forall k :: 0 <= k < count ==> mem[k] != '\0'
    ensures 0 < len <= count ==> len <= |mem| && mem[len - 1] == '\0' &&
                                 forall k :: 0 <= k < len - 1 ==> mem[k] != '\0'
    ensures len == 0 ==> |mem| < count && forall k :: 0 <= k < |mem| ==> mem[k] != '\0'
  {
    NulScan(mem, count, 0)
  }

  /** The scan of strnlen_user from byte `i` on. */
  function NulScan(mem: seq<char>, count: nat, i: nat): (len: nat)
    requires i <= count
    ensures len == 0 || i + 1 <= len <= count + 1
    ensures len == count + 1 ==> (i < count ==> count <= |mem|) && forall k :: i <= k < count ==> mem[k] != '\0'
    ensures 0 < len <= count ==> len - 1 < |mem| && mem[len - 1] == '\0' &&
                                 forall k :: i <= k < len - 1 ==> mem[k] != '\0'
    ensures len == 0 ==> |mem| < count && forall k :: i <= k < |mem| ==> mem[k] != '\0'
    decreases count - i
  {
    if i == count then count + 1
    else if i >= |mem| then 0
    else if mem[i] == '\0' then i + 1
    else NulScan(mem, count, i + 1)
  }

  /** What the loop leaves in one byte. */
  function JChar(c: char): char {
    if IsVowel(c) then 'j' else c
  }

  /** The rewritten bytes: every vowel becomes 'j', everything else stays. */
  function Jify(s: seq<char>): (r: seq<char>)
    ensures |r| == |s|
  {
    if s == [] then [] else Jify(s[..|s| - 1]) + [JChar(s[|s| - 1])]
  }

  /** How many bytes of `s` the loop rewrites. */
  function VowelCount(s: seq<char>): (n: nat)
    ensures n <= |s|
  {
    if s == [] then 0 else VowelCount(s[..|s| - 1]) + if IsVowel(s[|s| - 1]) then 1 else 0
  }

  /** The return value and the user memory after one call on a non-null buffer. */
  datatype Outcome = Outcome(ret: int, mem: seq<char>)

  function Syscall(mem: seq<char>): Outcome {
    var len := StrnlenUser(mem, MAX_LEN);
    if len > MAX_LEN || len <= 0 then Outcome(-1, mem)
    else Outcome(VowelCount(mem[..len]), Jify(mem[..len]) + mem[len..])
  }

  /**
   * jgraham5_syscall (my_syscall.c:3-34). A null pointer gives -1; otherwise
   * the return value and the new buffer are Syscall's. The user memory is
   * the array (nothing past its end is readable).
   */
  method Jgraham5Syscall(chrArr: array?<char>) returns (r: int)
    modifies chrArr
    ensures chrArr == null ==> r == -1
    ensures chrArr != null ==> r == Syscall(old(chrArr[..])).ret && chrArr[..] == Syscall(old(chrArr[..])).mem
  {
    if chrArr == null {
      return -1;
    }
    var len := StrnlenUser(chrArr[..], MAX_LEN);
    if len > MAX_LEN || len <= 0 {
      return -1;
    }
    var newStr := CopyFromUser(chrArr, len);
    var changed := RewriteVowels(newStr);
    CopyToUser(chrArr, newStr);
    r := changed;
  }

  /** strncpy_from_user (my_syscall.c:13): the first `len` user bytes into a fresh kernel buffer. */
  method CopyFromUser(user: array<char>, len: int) returns (buf: array<char>)
    requires 0 <= len <= user.Length
    ensures fresh(buf) && buf[..] == user[..len]
  {
    buf := new char[len];
    forall i | 0 <= i < len {
      buf[i] := user[i];
    }
  }

  /** copy_to_user (my_syscall.c:29): the kernel buffer back over the start of the user buffer. */
  method CopyToUser(user: array<char>, buf: array<char>)
    requires buf.Length <= user.Length && buf != user
    modifies user
    ensures user[..] == buf[..] + old(user[..])[buf.Length..]
  {
    forall i | 0 <= i < buf.Length {
      user[i] := buf[i];
    }
    assert user[..] == buf[..] + old(user[..])[buf.Length..] by {
      forall k | 0 <= k < user.Length ensures user[k] == (buf[..] + old(user[..])[buf.Length..])[k] {
        if k >= buf.Length {
          assert user[k] == old(user[k]);
        }
      }
    }
  }

  /**
   * The loop of my_syscall.c:19-25 over the kernel copy: every vowel becomes
   * 'j', and the count of rewritten bytes is returned.
   */
  method RewriteVowels(buf: array<char>) returns (changed: int)
    modifies buf
    ensures buf[..] == Jify(old(buf[..])) && changed == VowelCount(old(buf[..]))
  {
    ghost var orig := buf[..];
    changed := 0;
    for i := 0 to buf.Length
      invariant forall k :: 0 <= k < buf.Length ==> buf[k] == if k < i then JChar(orig[k]) else orig[k]
      invariant changed == VowelCount(orig[..i])
    {
      assert orig[..i + 1][..i] == orig[..i];
      if buf[i] == 'a' || buf[i] == 'e' || buf[i] == 'i' || buf[i] == 'o' || buf[i] == 'u' || buf[i] == 'y' {
        buf[i] := 'j';
        changed := changed + 1;
      }
    }
    assert orig[..buf.Length] == orig;
    assert buf[..] == Jify(orig) by {
      forall k | 0 <= k < buf.Length ensures buf[k] == Jify(orig)[k] {
        JifyAt(orig, k);
      }
    }
  }

  // ---------------------------------------------------------------------
  // Properties
  // ---------------------------------------------------------------------

  /** Jify rewrites exactly the vowels to 'j' and keeps every other byte. */
  lemma {:induction false} JifyAt(s: seq<char>, i: int)
    requires 0 <= i < |s|
    ensures Jify(s)[i] == JChar(s[i])
  {
    if i < |s| - 1 {
      assert s[..|s| - 1][i] == s[i];
      JifyAt(s[..|s| - 1], i);
    }
  }

  /** The count is the number of vowel positions, an independent definition. */
  lemma {:induction false} VowelCountPositions(s: seq<char>)
    ensures VowelCount(s) == |set i | 0 <= i < |s| && IsVowel(s[i])|
  {
    if s != [] {
      var s' := s[..|s| - 1];
      VowelCountPositions(s');
      var a := set i | 0 <= i < |s'| && IsVowel(s'[i]);
      var b := set i | 0 <= i < |s| && IsVowel(s[i]);
      if IsVowel(s[|s| - 1]) {
        assert b == a + {|s| - 1};
      } else {
        assert b == a;
      }
    }
  }

  /** Jify leaves no vowel behind, so a second pass rewrites nothing. */
  lemma {:induction false} JifyNoVowels(s: seq<char>)
    ensures VowelCount(Jify(s)) == 0 && Jify(Jify(s)) == Jify(s)
  {
    if s != [] {
      var s' := s[..|s| - 1];
      JifyNoVowels(s');
      assert Jify(s)[..|s| - 1] == Jify(s');
    }
  }

  /** Rewriting vowels to 'j' moves no terminator, so strnlen_user sees the same length. */
  lemma {:induction false} JifyKeepsLength(mem: seq<char>, len: nat, count: nat, i: nat)
    requires len <= |mem| && i <= count
    ensures NulScan(Jify(mem[..len]) + mem[len..], count, i) == NulScan(mem, count, i)
    decreases count - i
  {
    var m := Jify(mem[..len]) + mem[len..];
    if i < count && i < |mem| {
      if i < len {
        JifyAt(mem[..len], i);
      }
      assert (m[i] == '\0') == (mem[i] == '\0');
      JifyKeepsLength(mem, len, count, i + 1);
    }
  }

  /** A null pointer, and a length that strnlen_user reports as 0 or over 32, give -1. */
  lemma SyscallRejects(mem: seq<char>)
    ensures var len := StrnlenUser(mem, MAX_LEN);
      (Syscall(mem).ret == -1 <==> len > MAX_LEN || len == 0) &&
      (Syscall(mem).ret == -1 ==> Syscall(mem).mem == mem)
  {
  }

  /**
   * On success the buffer keeps its length; of the first `len` bytes each
   * vowel became 'j' and every other byte (upper-case vowels and the
   * terminator among them) is unchanged; the bytes after them are unchanged;
   * no vowel is left; the return value is the number of vowel positions.
   */
  lemma SyscallRewrites(mem: seq<char>)
    requires Syscall(mem).ret != -1
    ensures var len := StrnlenUser(mem, MAX_LEN);
      var after := Syscall(mem).mem;
      1 <= len <= MAX_LEN && |after| == |mem| &&
      (forall i :: 0 <= i < len ==> after[i] == if IsVowel(mem[i]) then 'j' else mem[i]) &&
      (forall i :: 0 <= i < len ==> !IsVowel(after[i])) &&
      (forall i :: len <= i < |mem| ==> after[i] == mem[i]) &&
      Syscall(mem).ret == |set i | 0 <= i < len && IsVowel(mem[i])|
  {
    var len := StrnlenUser(mem, MAX_LEN);
    assert 1 <= len <= MAX_LEN && len <= |mem|;
    assert Syscall(mem) == Outcome(VowelCount(mem[..len]), Jify(mem[..len]) + mem[len..]);
    JifySpliced(mem, len);
    VowelCountPrefix(mem, len);
  }

  /** The buffer after rewriting its first `len` bytes, position by position. */
  lemma JifySpliced(mem: seq<char>, len: nat)
    requires len <= |mem|
    ensures var after := Jify(mem[..len]) + mem[len..];
      |after| == |mem| &&
      (forall i :: 0 <= i < len ==> after[i] == JChar(mem[i])) &&
      (forall i :: len <= i < |mem| ==> after[i] == mem[i])
  {
    forall i | 0 <= i < len ensures (Jify(mem[..len]) + mem[len..])[i] == JChar(mem[i]) {
      JifyAt(mem[..len], i);
    }
  }

  /** The count over the first `len` bytes is the number of vowel positions among them. */
  lemma VowelCountPrefix(mem: seq<char>, len: nat)
    requires len <= |mem|
    ensures VowelCount(mem[..len]) == |set i | 0 <= i < len && IsVowel(mem[i])|
  {
    VowelCountPositions(mem[..len]);
    assert (set i | 0 <= i < len && IsVowel(mem[..len][i])) == (set i | 0 <= i < len && IsVowel(mem[i]));
  }

  /** A second call returns 0 and changes nothing; a rejected call stays rejected. */
  lemma SyscallIdempotent(mem: seq<char>)
    ensures var once := Syscall(mem);
      var twice := Syscall(once.mem);
      twice.mem == once.mem && twice.ret == (if once.ret == -1 then -1 else 0)
  {
    var len := StrnlenUser(mem, MAX_LEN);
    if 0 < len <= MAX_LEN {
      var after := Syscall(mem).mem;
      JifyKeepsLength(mem, len, MAX_LEN, 0);
      JifyNoVowels(mem[..len]);
      assert after[..len] == Jify(mem[..len]);
      assert after[len..] == mem[len..];
    }
  }

  /** With no terminator among the first `count` bytes, the scan reports `count + 1`. */
  lemma {:induction false} NulScanNone(mem: seq<char>, count: nat, i: nat)
    requires i <= count <= |mem| && forall k :: i <= k < count ==> mem[k] != '\0'
    ensures NulScan(mem, count, i) == count + 1
    decreases count - i
  {
    if i < count {
      NulScanNone(mem, count, i + 1);
    }
  }

  /** The first terminator at `j`, below `count`, gives length `j + 1`. */
  lemma {:induction false} NulScanFirst(mem: seq<char>, count: nat, i: nat, j: nat)
    requires i <= j < count && j < |mem| && mem[j] == '\0' && forall k :: i <= k < j ==> mem[k] != '\0'
    ensures NulScan(mem, count, i) == j + 1
    decreases j - i
  {
    if i < j {
      NulScanFirst(mem, count, i + 1, j);
    }
  }

  /** The first string of src/PA2/syscall.c is too long: -1, and it is unchanged. */
  lemma LongStringRejected()
    ensures var s := "This string is going to throw an error, I can feel it...\0";
      Syscall(s) == Outcome(-1, s)
  {
    var s := "This string is going to throw an error, I can feel it...\0";
    var front := "This string is going to throw an";
    assert s[..MAX_LEN] == front;
    assert forall k :: 0 <= k < MAX_LEN ==> front[k] != '\0';
    NulScanNone(s, MAX_LEN, 0);
  }

  /** The second string of src/PA2/syscall.c has six vowels, all rewritten to 'j'. */
  lemma ShortStringRewritten()
    ensures Syscall("This will work for sure!\0") == Outcome(6, "Thjs wjll wjrk fjr sjrj!\0")
  {
    var s := "This will work for sure!\0";
    ShortStringLength();
    assert s[..25] == s && s[25..] == [];
    ShortStringJify();
    ShortStringCount();
  }

  lemma ShortStringLength()
    ensures StrnlenUser("This will work for sure!\0", MAX_LEN) == 25
  {
    var s := "This will work for sure!\0";
    assert s[24] == '\0' && forall k :: 0 <= k < 24 ==> s[k] != '\0';
    NulScanFirst(s, MAX_LEN, 0, 24);
  }

  lemma ShortStringJify()
    ensures Jify("This will work for sure!\0") == "Thjs wjll wjrk fjr sjrj!\0"
  {
    var s := "This will work for sure!\0";
    var e := "Thjs wjll wjrk fjr sjrj!\0";
    forall k | 0 <= k < |s| ensures Jify(s)[k] == e[k] {
      JifyAt(s, k);
    }
  }

  lemma ShortStringCount()
    ensures VowelCount("This will work for sure!\0") == 6
  {
    var s := "This will work for sure!\0";
    VowelCountPositions(s);
    assert (set i | 0 <= i < |s| && IsVowel(s[i])) == {2, 6, 11, 16, 20, 22};
  }
}
