/** The string routines of src/libraries/string.c over NUL-terminated character arrays. */
module CStrings {
  import opened Words

  /** The C string at the front of a memory area: the characters before the first NUL. */
  function CString(b: seq<char>): (s: string)
    ensures |s| <= |b|
  {
    if b == [] || b[0] == NUL then [] else [b[0]] + CString(b[1..])
  }

  /** The area holds a NUL, so its C string ends inside it. */
  predicate HasNul(b: seq<char>) {
    |CString(b)| < |b|
  }

  predicate NoNul(s: string) {
    forall k :: 0 <= k < |s| ==> s[k] != NUL
  }

  /** The C string is the longest prefix without NULs. */
  lemma {:induction false} CStringFacts(b: seq<char>)
    ensures NoNul(CString(b)) && forall k :: 0 <= k < |CString(b)| ==> CString(b)[k] == b[k]
    ensures HasNul(b) ==> b[|CString(b)|] == NUL
    ensures HasNul(b) <==> NUL in b
  {
    if b != [] && b[0] != NUL {
      CStringFacts(b[1..]);
      assert b == [b[0]] + b[1..];
    }
  }

  lemma {:induction false} CStringIs(b: seq<char>, s: string)
    requires |s| < |b| && b[|s|] == NUL && NoNul(s) && forall k :: 0 <= k < |s| ==> b[k] == s[k]
    ensures CString(b) == s && HasNul(b)
  {
    if s != [] {
      assert b[0] == s[0];
      CStringIs(b[1..], s[1..]);
    }
  }

  /** The terminator is the character of code 0. */
  lemma CStringExample()
    ensures CString(['O', 'S', 0 as char, 'X']) == ['O', 'S'] && HasNul(['O', 'S', 0 as char, 'X'])
  {
    CStringIs(['O', 'S', 0 as char, 'X'], ['O', 'S']);
  }

  /** strlen(str + start) */
  method StrLen(str: array<char>, start: nat) returns (len: nat)
    requires start <= str.Length && HasNul(str[start..])
    ensures len == |CString(str[start..])|
  {
    ghost var b := str[start..];
    CStringFacts(b);
    len := 0;
    while str[start + len] != NUL
      invariant len <= |CString(b)|
      decreases |b| - len
    {
      assert b[len] == str[start + len];
      len := len + 1;
    }
    assert b[len] == str[start + len];
  }

  method Length(str: array<char>) returns (len: nat)
    requires HasNul(str[..])
    ensures len == |CString(str[..])|
  {
    assert str[0..] == str[..];
    len := StrLen(str, 0);
  }

  // ----- reverse

  function Reversed<T>(s: seq<T>): (r: seq<T>)
    ensures |r| == |s|
  {
    if s == [] then [] else Reversed(s[1..]) + [s[0]]
  }

  lemma {:induction false} ReversedAt<T>(s: seq<T>, k: nat)
    requires k < |s|
    ensures Reversed(s)[k] == s[|s| - 1 - k]
  {
    if k < |s| - 1 {
      ReversedAt(s[1..], k);
    }
  }

  lemma {:induction false} ReversedSnoc<T>(s: seq<T>, x: T)
    ensures Reversed(s + [x]) == [x] + Reversed(s)
  {
    if s == [] {
      assert [] + [x] == [x];
    } else {
      assert (s + [x])[1..] == s[1..] + [x];
      ReversedSnoc(s[1..], x);
    }
  }

  /** The swapping loop. */
  method SwapEnds(str: array<char>, n: nat)
    requires n <= str.Length
    modifies str
    ensures str[..n] == Reversed(old(str[..n])) && str[n..] == old(str[n..])
  {
    var i, j := 0, n - 1;
    while i < j
      invariant 0 <= i <= j + 2 && i + j == n - 1
      invariant forall k :: 0 <= k < i ==> str[k] == old(str[n - 1 - k]) && str[n - 1 - k] == old(str[k])
      invariant forall k :: i <= k < n - i ==> str[k] == old(str[k])
      invariant forall k :: n <= k < str.Length ==> str[k] == old(str[k])
    {
      str[i], str[j] := str[j], str[i];
      i, j := i + 1, j - 1;
    }
    ghost var was := old(str[..n]);
    forall k | 0 <= k < n ensures str[..n][k] == Reversed(was)[k] {
      ReversedAt(was, k);
    }
  }

  /** Reverses the string in place and touches nothing after it. */
  method Reverse(str: array<char>)
    requires HasNul(str[..])
    modifies str
    ensures var n := |CString(old(str[..]))|;
      str[..n] == Reversed(CString(old(str[..]))) && str[n..] == old(str[n..])
  {
    var n := Length(str);
    CStringFacts(str[..]);
    assert str[..n] == CString(str[..]);
    SwapEnds(str, n);
  }

  // ----- Comparing, copying, case, trimming

  /** string_equals_len: the first string is counted, the second NUL-terminated. */
  method StringEqualsLen(string1: seq<char>, string2: array<char>, start: nat, len: nat) returns (equal: bool)
    requires len <= |string1| && start <= string2.Length && HasNul(string2[start..])
    ensures equal <==> CString(string2[start..]) == string1[..len]
  {
    ghost var b := string2[start..];
    CStringFacts(b);
    var l := StrLen(string2, start);
    if l != len {
      return false;
    }
    for i := 0 to len
      invariant forall k :: 0 <= k < i ==> string1[k] == CString(b)[k]
    {
      assert b[i] == string2[start + i];
      if string1[i] != string2[start + i] {
        assert string1[..len][i] != CString(b)[i];
        return false;
      }
    }
    return true;
  }

  /** The copying loop of strncpy. */
  method CopyChars(dest: array<char>, src: array<char>, start: nat, n: nat) returns (i: nat)
    requires dest != src && start <= src.Length && HasNul(src[start..])
    requires |CString(src[start..])| < dest.Length || n < dest.Length
    modifies dest
    ensures var s := CString(src[start..]); i == (if |s| < n then |s| else n) && i < dest.Length
    ensures forall k :: 0 <= k < i ==> dest[k] == CString(src[start..])[k]
    ensures forall k :: i <= k < dest.Length ==> dest[k] == old(dest[k])
  {
    ghost var b := src[start..];
    CStringFacts(b);
    i := 0;
    while i < n && src[start + i] != NUL
      invariant i <= |CString(b)| && i <= n && i < dest.Length && src[start..] == b
      invariant forall k :: 0 <= k < i ==> dest[k] == CString(b)[k]
      invariant forall k :: i <= k < dest.Length ==> dest[k] == old(dest[k])
      decreases |b| - i
    {
      assert b[i] == src[start + i];
      dest[i] := src[start + i];
      i := i + 1;
    }
    assert b[i] == src[start + i];
  }

  /** strncpy of this kernel: at most n characters and always a NUL. */
  method StrNCpy(dest: array<char>, src: array<char>, start: nat, n: nat)
    requires dest != src && start <= src.Length && HasNul(src[start..])
    requires |CString(src[start..])| < dest.Length || n < dest.Length
    modifies dest
    ensures var s := CString(src[start..]);
      CString(dest[..]) == (if |s| < n then s else s[..n]) && HasNul(dest[..])
    ensures forall k :: |CString(dest[..])| < k < dest.Length ==> dest[k] == old(dest[k])
  {
    CStringFacts(src[start..]);
    var i := CopyChars(dest, src, start, n);
    ghost var taken := CString(src[start..])[..i];
    dest[i] := NUL;
    CStringIs(dest[..], taken);
  }

  function UpperChar(c: char): (u: char)
    ensures u == NUL <==> c == NUL
  {
    if 'a' <= c <= 'z' then c - (32 as char) else c
  }

  function Upper(s: string): (u: string)
    ensures |u| == |s| && forall k :: 0 <= k < |s| ==> u[k] == UpperChar(s[k])
  {
    seq(|s|, i requires 0 <= i < |s| => UpperChar(s[i]))
  }

  /** Letter by letter: small letters become the capitals of the same number, everything else is kept. */
  lemma UpperFacts(s: string, k: nat)
    requires k < |s|
    ensures !('a' <= Upper(s)[k] <= 'z')
    ensures 'a' <= s[k] <= 'z' ==> Upper(s)[k] as int - 'A' as int == s[k] as int - 'a' as int
    ensures !('a' <= s[k] <= 'z') ==> Upper(s)[k] == s[k]
  {
  }

  /** Two characters that are equal up to ASCII case. */
  predicate SameLetter(a: char, b: char) {
    || a == b
    || ('a' <= a <= 'z' && b as int - 'A' as int == a as int - 'a' as int)
    || ('a' <= b <= 'z' && a as int - 'A' as int == b as int - 'a' as int)
  }

  predicate SameLetters(a: string, b: string) {
    |a| == |b| && forall k :: 0 <= k < |a| ==> SameLetter(a[k], b[k])
  }

  /** Upper-casing identifies exactly the strings that are equal up to case. */
  lemma UpperIdentifies(a: string, b: string)
    ensures Upper(a) == Upper(b) <==> SameLetters(a, b)
  {
    if SameLetters(a, b) {
      forall k | 0 <= k < |a| ensures Upper(a)[k] == Upper(b)[k] {
        assert SameLetter(a[k], b[k]);
      }
    } else if Upper(a) == Upper(b) {
      forall k | 0 <= k < |a| ensures SameLetter(a[k], b[k]) {
        assert Upper(a)[k] == Upper(b)[k];
      }
    }
  }

  /** A string whose first i characters are upper-cased still ends at the same NUL. */
  lemma PartlyUpper(was: seq<char>, b: seq<char>, i: nat)
    requires HasNul(was) && |b| == |was| && i <= |CString(was)|
    requires forall k :: 0 <= k < i ==> b[k] == UpperChar(was[k])
    requires forall k :: i <= k < |b| ==> b[k] == was[k]
    ensures |CString(b)| == |CString(was)| && HasNul(b)
    ensures i == |CString(was)| ==> CString(b) == Upper(CString(was))
  {
    CStringFacts(was);
    var n := |CString(was)|;
    assert NoNul(b[..n]) by {
      forall k | 0 <= k < n ensures b[..n][k] != NUL {
        assert CString(was)[k] == was[k];
      }
    }
    CStringIs(b, b[..n]);
    if i == n {
      assert b[..n] == Upper(CString(was));
    }
  }

  method ToUpperCase(str: array<char>)
    requires HasNul(str[..])
    modifies str
    ensures CString(str[..]) == Upper(CString(old(str[..]))) && HasNul(str[..])
    ensures forall k :: |CString(str[..])| <= k < str.Length ==> str[k] == old(str[k])
  {
    ghost var was := str[..];
    var i := 0;
    var length := Length(str);
    while i < length
      invariant i <= length == |CString(was)| < str.Length
      invariant forall k :: 0 <= k < i ==> str[k] == UpperChar(was[k])
      invariant forall k :: i <= k < str.Length ==> str[k] == was[k]
    {
      if 'a' <= str[i] <= 'z' {
        str[i] := str[i] - (32 as char);
      }
      i := i + 1;
      PartlyUpper(was, str[..], i);
      length := Length(str);
    }
    PartlyUpper(was, str[..], i);
  }

  /** trim_to_len: cuts to `len` characters; the result says whether nothing had to be cut. */
  method TrimToLen(str: array<char>, len: nat) returns (r: int)
    requires HasNul(str[..])
    modifies str
    ensures var s := CString(old(str[..])); CString(str[..]) == (if |s| <= len then s else s[..len])
    ensures r == if |CString(old(str[..]))| <= len then 1 else 0
    ensures r == 1 ==> str[..] == old(str[..])
    ensures forall k :: |CString(old(str[..]))| <= k < str.Length ==> str[k] == old(str[k])
  {
    ghost var was := str[..];
    CStringFacts(was);
    var l := Length(str);
    if l <= len {
      return 1;
    }
    var i := l;
    while true
      invariant len <= i <= l && l == |CString(was)| < str.Length
      invariant forall k :: 0 <= k < i || l <= k < str.Length ==> str[k] == was[k]
      decreases i
    {
      str[i] := NUL;
      CStringIs(str[..], CString(was)[..i]);
      var now := Length(str);
      if now <= len {
        break;
      }
      i := i - 1;
    }
    return 0;
  }
}
