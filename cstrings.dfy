/**
 * Text as the C code of the platform tools sees it: a sequence of `char`s,
 * where a string ends at its first NUL byte.
 */
module CStrings {
  import opened Results

  /** A C `char`: one byte of text. */
  type byte = c: char | c as int < 256 witness '\0'

  /** The terminator of a C string. */
  const NUL: byte := '\0'

  /** `s` holds no NUL byte, so C sees all of it as one string. */
  predicate NoNul(s: seq<byte>) {
    NUL !in s
  }

  /** `strlen`: the number of bytes before the first NUL (all of `s` when there is none). */
  function StrLen(s: seq<byte>): (n: nat)
    ensures n <= |s|
    ensures NoNul(s[..n])
    ensures n < |s| ==> s[n] == NUL
  {
    if s == [] || s[0] == NUL then 0
    else
      var n := 1 + StrLen(s[1..]);
      assert s[..n] == [s[0]] + s[1..][..n - 1];
      n
  }

  /** The C string that starts at the first byte of `s`: what `strstr`, `strchr` or `lua_pushstring` read. */
  function CStr(s: seq<byte>): (t: seq<byte>)
    ensures NoNul(t) && t <= s
    ensures |t| < |s| ==> s[|t|] == NUL
  {
    s[..StrLen(s)]
  }

  /** A string without NUL bytes is its own C string. */
  lemma CStrOfNoNul(s: seq<byte>)
    requires NoNul(s)
    ensures CStr(s) == s
  {
  }

  /** Reading a C string across a NUL-free prefix: the prefix is kept whole. */
  lemma {:induction false} CStrAppend(a: seq<byte>, b: seq<byte>)
    requires NoNul(a)
    ensures StrLen(a + b) == |a| + StrLen(b)
    ensures CStr(a + b) == a + CStr(b)
  {
    if a != [] {
      assert a[0] in a && (a + b)[0] == a[0] && (a + b)[1..] == a[1..] + b;
      CStrAppend(a[1..], b);
    } else {
      assert a + b == b;
    }
  }

  /** The C string read from inside another one is that one's tail. */
  lemma CStrSuffix(s: seq<byte>, k: nat)
    requires k <= |CStr(s)|
    ensures CStr(s[k..]) == CStr(s)[k..]
  {
    var n := StrLen(s);
    assert s[k..] == s[k..n] + s[n..];
    CStrAppend(s[k..n], s[n..]);
    assert StrLen(s[n..]) == 0;
  }

  /** `strchr`: the index of the first `c` in `s`, if any. */
  function IndexOf(s: seq<byte>, c: byte): (r: Option<nat>)
    ensures r.None? <==> c !in s
    ensures r.Some? ==> r.value < |s| && s[r.value] == c && c !in s[..r.value]
  {
    if s == [] then None
    else if s[0] == c then Some(0)
    else
      match IndexOf(s[1..], c)
      case None => None
      case Some(i) =>
        assert s[..i + 1] == [s[0]] + s[1..][..i];
        Some(i + 1)
  }

  /** `pat` occurs in `s` starting at index `i`. */
  predicate OccursAt(s: seq<byte>, pat: seq<byte>, i: nat) {
    i + |pat| <= |s| && s[i..i + |pat|] == pat
  }

  /** An occurrence in the tail of `s` is an occurrence in `s`, one index further on. */
  lemma OccursInTail(s: seq<byte>, pat: seq<byte>, j: nat)
    requires s != []
    ensures OccursAt(s[1..], pat, j) <==> OccursAt(s, pat, j + 1)
  {
    if j + 1 + |pat| <= |s| {
      assert s[1..][j..j + |pat|] == s[j + 1..j + 1 + |pat|];
    }
  }

  /** `strstr`: the index of the first occurrence of `pat` in `s`, if any. */
  function StrStr(s: seq<byte>, pat: seq<byte>): (r: Option<nat>)
    ensures r.Some? ==> OccursAt(s, pat, r.value)
    ensures r.Some? ==> forall j: nat :: j < r.value ==> !OccursAt(s, pat, j)
    ensures r.None? ==> forall j: nat :: !OccursAt(s, pat, j)
    decreases |s|
  {
    if OccursAt(s, pat, 0) then Some(0)
    else if s == [] then None
    else
      match StrStr(s[1..], pat)
      case None =>
        assert forall j: nat :: !OccursAt(s, pat, j) by {
          forall j: nat ensures !OccursAt(s, pat, j) {
            if j > 0 { OccursInTail(s, pat, j - 1); }
          }
        }
        None
      case Some(i) =>
        OccursInTail(s, pat, i);
        assert forall j: nat :: j < i + 1 ==> !OccursAt(s, pat, j) by {
          forall j: nat | j < i + 1 ensures !OccursAt(s, pat, j) {
            if j > 0 { OccursInTail(s, pat, j - 1); }
          }
        }
        Some(i + 1)
  }
}
