/** Case-insensitive substring search on NUL-terminated strings, and the FPGA part check built on it. */
module PartName {

  const NUL: char := '\0'

  datatype Pointer = Null | At(index: nat)

  function ToLower(c: char): char {
    if 'A' <= c <= 'Z' then c - 'A' + 'a' else c
  }

  /** The same character, or an ASCII letter and its other case, which is 32 away. */
  predicate SameLetter(c: char, d: char) {
    var (x, y) := (c as int, d as int);
    x == y || (65 <= x <= 90 && y == x + 32) || (65 <= y <= 90 && x == y + 32)
  }

  /** tolower identifies a letter with its other case, and no other two characters. */
  lemma ToLowerIff(c: char, d: char)
    ensures ToLower(c) == ToLower(d) <==> SameLetter(c, d)
  {
  }

  /** What `*(s + i)` reads: a C string is its characters followed by a terminating NUL. */
  function Deref(s: string, i: nat): char
    requires i <= |s|
  {
    if i < |s| then s[i] else NUL
  }

  predicate CString(s: string) { '\0' !in s }

  /** The first k characters of pat agree with text from position i on, ignoring case. */
  predicate Agrees(text: string, pat: string, i: nat, k: nat) {
    && k <= |pat| && i + k <= |text|
    && forall j | 0 <= j < k :: SameLetter(text[i + j], pat[j])
  }

  predicate OccursAt(text: string, pat: string, i: nat) { Agrees(text, pat, i, |pat|) }

  ghost predicate NoneBefore(text: string, pat: string, i: int) {
    forall k: nat | k < i :: !OccursAt(text, pat, k)
  }

  /** After a mismatch the search falls back to the character behind the start of the failed match. */
  method Restart(text: string, pat: string, p1: nat, r: Pointer) returns (p1': nat, p2': nat, r': Pointer)
    requires CString(pat) && pat != [] && p1 < |text|
    requires r.At? ==> r.index < p1
    ensures p1' == if r.At? then r.index + 1 else p1
    ensures p1' <= p1
    ensures if SameLetter(text[p1'], pat[0]) then r' == At(p1') && p2' == 1 else r' == Null && p2' == 0
  {
    p2', p1', r' := 0, p1, r;
    if r'.At? {
      p1' := r'.index + 1;
    }
    ToLowerIff(text[p1'], pat[p2']);
    if ToLower(Deref(text, p1')) == ToLower(Deref(pat, p2')) {
      r' := At(p1');
      p2' := p2' + 1;
    } else {
      r' := Null;
    }
  }

  /** stristr: the leftmost case-insensitive occurrence, or null exactly when there is none. */
  method StrIStr(str1: string, str2: string) returns (found: Pointer)
    requires CString(str1) && CString(str2)
    ensures found.At? ==> OccursAt(str1, str2, found.index) && NoneBefore(str1, str2, found.index)
    ensures found.Null? <==> forall i: nat :: !OccursAt(str1, str2, i)
  {
    var p1: nat, p2: nat := 0, 0;
    var r := if Deref(str2, p2) == NUL then At(0) else Null;
    while Deref(str1, p1) != NUL && Deref(str2, p2) != NUL
      invariant p1 <= |str1| && p2 <= |str2|
      invariant r.Null? ==> p2 == 0 && str2 != [] && NoneBefore(str1, str2, p1)
      invariant r.At? ==> p1 == r.index + p2 && Agrees(str1, str2, r.index, p2) && NoneBefore(str1, str2, r.index)
      invariant r.At? && p2 == 0 ==> str2 == []
      decreases |str1| - (if r.At? then r.index else p1), |str1| - p1
    {
      ToLowerIff(str1[p1], str2[p2]);
      if ToLower(Deref(str1, p1)) == ToLower(Deref(str2, p2)) {
        if r.Null? {
          r := At(p1);
        }
        p2 := p2 + 1;
      } else {
        ghost var old1, old2, oldR := p1, p2, r;
        p1, p2, r := Restart(str1, str2, p1, r);
        assert NoneBefore(str1, str2, p1) && (r.Null? ==> !OccursAt(str1, str2, p1)) by {
          if oldR.At? {
            assert str1[oldR.index + old2] == str1[old1];
          }
        }
      }
      p1 := p1 + 1;
    }
    found := if Deref(str2, p2) == NUL then r else Null;
    if found.Null? {
      forall i: nat
        ensures !OccursAt(str1, str2, i)
      {
        assert p2 < |str2| && p1 == |str1|;
      }
    } else {
      assert OccursAt(str1, str2, found.index);
    }
  }

  /** The bit file is accepted exactly when the device name is a case-insensitive prefix of its part field. */
  method PartMatches(filePart: string, devicePart: string) returns (ok: bool)
    requires CString(filePart) && CString(devicePart)
    ensures ok <==> PrefixIgnoringCase(devicePart, filePart)
  {
    var p := StrIStr(filePart, devicePart);
    ok := p == At(0);
    PrefixIsOccurrenceAtZero(devicePart, filePart);
    if p.At? && p.index > 0 {
      assert !OccursAt(filePart, devicePart, 0);
    }
  }

  predicate PrefixIgnoringCase(p: string, s: string) {
    |p| <= |s| && forall j | 0 <= j < |p| :: SameLetter(s[j], p[j])
  }

  lemma PrefixIsOccurrenceAtZero(p: string, s: string)
    ensures PrefixIgnoringCase(p, s) <==> OccursAt(s, p, 0)
  {
    if OccursAt(s, p, 0) {
      assert forall j | 0 <= j < |p| :: s[0 + j] == s[j];
    }
  }
}
