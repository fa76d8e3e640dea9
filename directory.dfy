/**
 * The directory-entry filters of the platform tools: `platform_listDir`
 * and `platform_isDirEmpty` walk a directory stream and skip the `.` and
 * `..` entries. The stream is the sequence of names `readdir` returns, in
 * its order; `None` stands for an `opendir` that failed.
 */
module Directory {
  import opened Results
  import opened CStrings

  /** A `d_name`: a C string, so it holds no NUL. */
  type Name = s: seq<byte> | NoNul(s)

  /** The error both bindings raise: "Could not open directory". */
  datatype DirError = OpenDirFailed

  /** The entries both loops skip. */
  predicate IsDot(name: Name) {
    name == "." || name == ".."
  }

  /** The entries of `entries` other than `.` and `..`, in stream order. */
  function WithoutDots(entries: seq<Name>): seq<Name> {
    if entries == [] then []
    else (if IsDot(entries[0]) then [] else [entries[0]]) + WithoutDots(entries[1..])
  }

  /** Filtering a stream read in two parts is filtering each part, in order. */
  lemma {:induction false} WithoutDotsAppend(a: seq<Name>, b: seq<Name>)
    ensures WithoutDots(a + b) == WithoutDots(a) + WithoutDots(b)
  {
    if a == [] {
      assert a + b == b;
    } else {
      assert (a + b)[0] == a[0] && (a + b)[1..] == a[1..] + b;
      WithoutDotsAppend(a[1..], b);
    }
  }

  /** A name is listed exactly when the stream has it and it is neither `.` nor `..`. */
  lemma {:induction false} WithoutDotsMembers(entries: seq<Name>, name: Name)
    ensures name in WithoutDots(entries) <==> name in entries && !IsDot(name)
  {
    if entries != [] {
      WithoutDotsMembers(entries[1..], name);
      assert entries == [entries[0]] + entries[1..];
    }
  }

  /** Every name is listed as often as the stream has it, dot entries never. */
  lemma {:induction false} WithoutDotsCounts(entries: seq<Name>, name: Name)
    ensures multiset(WithoutDots(entries))[name] == if IsDot(name) then 0 else multiset(entries)[name]
  {
    if entries != [] {
      WithoutDotsCounts(entries[1..], name);
      assert entries == [entries[0]] + entries[1..];
    }
  }

  /** `sub` is `s` with some elements left out, the others kept in order. */
  ghost predicate IsSubsequence(sub: seq<Name>, s: seq<Name>)
    decreases |s|
  {
    if sub == [] then true
    else if s == [] then false
    else (sub[0] == s[0] && IsSubsequence(sub[1..], s[1..])) || IsSubsequence(sub, s[1..])
  }

  /** The listing is an in-order subsequence of the stream. */
  lemma {:induction false} WithoutDotsIsSubsequence(entries: seq<Name>)
    ensures IsSubsequence(WithoutDots(entries), entries)
  {
    if entries != [] {
      WithoutDotsIsSubsequence(entries[1..]);
      var r := WithoutDots(entries);
      if !IsDot(entries[0]) {
        assert r[0] == entries[0] && r[1..] == WithoutDots(entries[1..]);
      } else {
        assert r == WithoutDots(entries[1..]);
      }
    }
  }

  /** Nothing is listed exactly when every entry is `.` or `..`. */
  lemma {:induction false} WithoutDotsEmpty(entries: seq<Name>)
    ensures WithoutDots(entries) == [] <==> forall k :: 0 <= k < |entries| ==> IsDot(entries[k])
  {
    if entries != [] {
      WithoutDotsEmpty(entries[1..]);
      assert forall k :: 1 <= k < |entries| ==> entries[k] == entries[1..][k - 1];
    }
  }

  /**
   * `platform_listDir`: the names of the stream in order, `.` and `..`
   * skipped, as the array-like table the binding fills from index 1.
   */
  method ListDir(dir: Option<seq<Name>>) returns (r: Result<seq<Name>, DirError>)
    ensures dir.None? ==> r == Err(OpenDirFailed)
    ensures dir.Some? ==> r == Ok(WithoutDots(dir.value))
  {
    if dir.None? {
      return Err(OpenDirFailed);
    }
    var entries := dir.value;
    var names: seq<Name> := [];
    var i := 0;
    while i < |entries|
      invariant 0 <= i <= |entries|
      invariant names == WithoutDots(entries[..i])
    {
      var entry := entries[i];
      assert entries[..i + 1] == entries[..i] + [entry];
      WithoutDotsAppend(entries[..i], [entry]);
      i := i + 1;
      if IsDot(entry) {
        continue;
      }
      names := names + [entry];
    }
    assert entries[..i] == entries;
    return Ok(names);
  }

  /**
   * `platform_isDirEmpty`: stops reading at the first entry other than `.`
   * or `..`. `consumed` counts the entries read.
   */
  method IsDirEmpty(dir: Option<seq<Name>>) returns (r: Result<bool, DirError>, ghost consumed: nat)
    ensures dir.None? ==> r == Err(OpenDirFailed)
    ensures dir.Some? ==> r == Ok(WithoutDots(dir.value) == [])
    ensures dir.Some? && r == Ok(false) ==>
              0 < consumed <= |dir.value| && !IsDot(dir.value[consumed - 1]) &&
              forall k :: 0 <= k < consumed - 1 ==> IsDot(dir.value[k])
    ensures dir.Some? && r == Ok(true) ==> consumed == |dir.value|
  {
    consumed := 0;
    if dir.None? {
      return Err(OpenDirFailed), consumed;
    }
    var entries := dir.value;
    WithoutDotsEmpty(entries);
    var i := 0;
    while i < |entries|
      invariant 0 <= i <= |entries|
      invariant forall k :: 0 <= k < i ==> IsDot(entries[k])
    {
      var entry := entries[i];
      i := i + 1;
      if IsDot(entry) {
        continue;
      }
      return Ok(false), i;
    }
    return Ok(true), i;
  }
}
