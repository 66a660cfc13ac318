/** Stack frames attached to log entries, as the collector and the zap core both build them. */
module LogTrace {
  const MAX_FRAMES: nat := 12

  datatype Frame = Frame(call: string, file: string, line: int, isVendor: bool)

  function ToLower(s: string): string {
    seq(|s|, i requires 0 <= i < |s| => if 'A' <= s[i] <= 'Z' then s[i] - 'A' + 'a' else s[i])
  }

  predicate OccursAt(s: string, part: string, i: int) {
    0 <= i <= |s| - |part| && s[i..i + |part|] == part
  }

  predicate Contains(s: string, part: string) {
    exists i :: 0 <= i <= |s| - |part| && OccursAt(s, part, i)
  }

  predicate IsVendorPath(path: string) {
    path != "" && (Contains(ToLower(path), "/vendor/") || Contains(ToLower(path), "/pkg/mod/"))
  }

  /** Equal up to the case of ASCII letters, where `b` is written in small letters. */
  predicate SameLetter(a: char, b: char) {
    a == b || ('A' <= a <= 'Z' && 'a' <= b <= 'z' && a - 'A' == b - 'a')
  }

  /** `part` is found in `s` at `i`, whatever the case of the letters in `s`. */
  predicate FoundAt(s: string, part: string, i: int) {
    0 <= i <= |s| - |part| && forall j :: 0 <= j < |part| ==> SameLetter(s[i + j], part[j])
  }

  /** Neither a capital letter nor anything beyond ASCII letters, digits and marks. */
  predicate NoCapitals(s: string) {
    forall j :: 0 <= j < |s| ==> !('A' <= s[j] <= 'Z')
  }

  lemma LowerLetter(c: char)
    ensures var low := if 'A' <= c <= 'Z' then c - 'A' + 'a' else c;
            forall b :: !('A' <= b <= 'Z') ==> (SameLetter(c, b) <==> low == b)
  {
  }

  lemma LowerAt(s: string, part: string, i: int)
    requires NoCapitals(part)
    ensures OccursAt(ToLower(s), part, i) <==> FoundAt(s, part, i)
  {
    var low := ToLower(s);
    if OccursAt(low, part, i) {
      forall j | 0 <= j < |part| ensures SameLetter(s[i + j], part[j]) {
        assert low[i..i + |part|][j] == part[j] == low[i + j];
        LowerLetter(s[i + j]);
      }
    }
    if FoundAt(s, part, i) {
      forall j | 0 <= j < |part| ensures low[i..i + |part|][j] == part[j] {
        assert SameLetter(s[i + j], part[j]) && low[i..i + |part|][j] == low[i + j];
        LowerLetter(s[i + j]);
      }
    }
  }

  /** A path is a vendor path if a vendor or module directory occurs in it somewhere, in any case. */
  lemma VendorIff(path: string)
    ensures IsVendorPath(path) <==> exists i :: FoundAt(path, "/vendor/", i) || FoundAt(path, "/pkg/mod/", i)
  {
    forall i ensures OccursAt(ToLower(path), "/vendor/", i) <==> FoundAt(path, "/vendor/", i) {
      LowerAt(path, "/vendor/", i);
    }
    forall i ensures OccursAt(ToLower(path), "/pkg/mod/", i) <==> FoundAt(path, "/pkg/mod/", i) {
      LowerAt(path, "/pkg/mod/", i);
    }
  }
}
