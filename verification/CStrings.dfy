/** The C string routines the package manager is written with: strtok_r, strstr and strrchr. */
module CStrings {
  import opened Bytes

  // The length of the leading field, up to a separator.
  function FieldEnd(s: bytes, seps: bytes): (k: nat)
    ensures k <= |s| && (k < |s| ==> s[k] in seps) && forall i | 0 <= i < k :: s[i] !in seps
  {
    if s == [] || s[0] in seps then 0 else 1 + FieldEnd(s[1..], seps)
  }

  // The nonempty fields between separators, which is what repeated strtok_r calls return.
  function Fields(s: bytes, seps: bytes): seq<bytes>
    decreases |s|
  {
    if s == [] then []
    else if s[0] in seps then Fields(s[1..], seps)
    else
      var k := FieldEnd(s, seps);
      [s[..k]] + Fields(s[k..], seps)
  }

  // Where pattern first occurs in s.
  function Find(s: bytes, pattern: bytes): (r: Option<nat>)
    ensures r.Some? ==> At(s, |s|, r.value, pattern) && forall i | 0 <= i < r.value :: !At(s, |s|, i, pattern)
    ensures r.None? ==> forall i :: 0 <= i <= |s| ==> !At(s, |s|, i, pattern)
  {
    FindFrom(s, pattern, 0)
  }

  function FindFrom(s: bytes, pattern: bytes, i: nat): (r: Option<nat>)
    requires i <= |s| + 1
    ensures r.Some? ==>
      i <= r.value && At(s, |s|, r.value, pattern) && forall j | i <= j < r.value :: !At(s, |s|, j, pattern)
    ensures r.None? ==> forall j :: i <= j <= |s| ==> !At(s, |s|, j, pattern)
    decreases |s| + 1 - i
  {
    if i > |s| then None
    else if At(s, |s|, i, pattern) then Some(i)
    else FindFrom(s, pattern, i + 1)
  }

  predicate Contains(s: bytes, pattern: bytes) { Find(s, pattern).Some? }

  // The text of p before its last slash.
  function Parent(p: bytes): bytes
  {
    if p == [] then [] else if p[|p| - 1] == 0x2F then p[..|p| - 1] else Parent(p[..|p| - 1])
  }

  // The text after the last slash.
  function Base(p: bytes): bytes
  {
    if p == [] || p[|p| - 1] == 0x2F then [] else Base(p[..|p| - 1]) + [p[|p| - 1]]
  }

  // strtok_r: skip separators, then take what is before the next one.
  method NextToken(copy: bytes, seps: bytes, pos: nat) returns (token: Option<bytes>, next: nat)
    requires pos <= |copy|
    ensures pos <= next <= |copy|
    ensures match token
      case None => Fields(copy[pos..], seps) == []
      case Some(t) => pos < next && Fields(copy[pos..], seps) == [t] + Fields(copy[next..], seps)
  {
    hide Fields;
    var start: nat := pos;
    while start < |copy| && copy[start] in seps
      invariant pos <= start <= |copy| && Fields(copy[start..], seps) == Fields(copy[pos..], seps)
    {
      SkipSeparator(copy, seps, start);
      start := start + 1;
    }
    if start == |copy| {
      FieldsOfOne(copy[start..], seps);
      return None, start;
    }
    next := start;
    while next < |copy| && copy[next] !in seps
      invariant start <= next <= |copy| && forall i | start <= i < next :: copy[i] !in seps
    {
      next := next + 1;
    }
    TakeField(copy, seps, start, next);
    return Some(copy[start..next]), next;
  }

  lemma SkipSeparator(s: bytes, seps: bytes, i: nat)
    requires i < |s| && s[i] in seps
    ensures Fields(s[i..], seps) == Fields(s[i + 1..], seps)
  {
    assert s[i..][1..] == s[i + 1..];
  }

  lemma TakeField(s: bytes, seps: bytes, i: nat, j: nat)
    requires i < j <= |s| && (j < |s| ==> s[j] in seps) && forall k | i <= k < j :: s[k] !in seps
    ensures Fields(s[i..], seps) == [s[i..j]] + Fields(s[j..], seps)
  {
    FieldEndIs(s[i..], seps, j - i);
    assert s[i..][..j - i] == s[i..j] && s[i..][j - i..] == s[j..];
  }

  lemma {:induction false} FieldEndIs(s: bytes, seps: bytes, k: nat)
    requires k <= |s| && (k < |s| ==> s[k] in seps) && forall i | 0 <= i < k :: s[i] !in seps
    ensures FieldEnd(s, seps) == k
  {
    if k > 0 { FieldEndIs(s[1..], seps, k - 1); }
  }

  lemma FieldsOfOne(text: bytes, seps: bytes)
    requires forall c | c in text :: c !in seps
    ensures Fields(text, seps) == if text == [] then [] else [text]
  {
    if text != [] {
      FieldEndIs(text, seps, |text|);
      assert text[..|text|] == text && text[|text|..] == [];
    }
  }

  // Joining two texts with a separator joins their fields.
  lemma {:induction false} FieldsJoin(a: bytes, sep: byte, b: bytes, seps: bytes)
    requires sep in seps
    ensures Fields(a + [sep] + b, seps) == Fields(a, seps) + Fields(b, seps)
    decreases |a|
  {
    var all := a + [sep] + b;
    if a == [] {
      assert all[1..] == b;
    } else if a[0] in seps {
      assert all[1..] == a[1..] + [sep] + b;
      FieldsJoin(a[1..], sep, b, seps);
    } else {
      var k := FieldEnd(a, seps);
      forall i | 0 <= i < k ensures all[i] !in seps { assert all[i] == a[i]; }
      FieldEndIs(all, seps, k);
      assert all[..k] == a[..k] && all[k..] == a[k..] + [sep] + b;
      FieldsJoin(a[k..], sep, b, seps);
    }
  }

  // A field holds no separator and is not empty.
  lemma {:induction false} FieldsAreFields(s: bytes, seps: bytes)
    ensures forall f | f in Fields(s, seps) :: f != [] && forall c | c in f :: c !in seps
    decreases |s|
  {
    if s != [] {
      var k := FieldEnd(s, seps);
      FieldsAreFields(if s[0] in seps then s[1..] else s[k..], seps);
    }
  }
}
