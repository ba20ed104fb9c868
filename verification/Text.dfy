/** Text helpers. A string holds one character per byte, as headers and request targets do. */
module Text {

  type HeaderValue = string

  predicate IsSpace(c: char) {
    c == ' ' || 9 <= c as int <= 13
  }

  function TrimStart(s: string): string {
    if s != [] && IsSpace(s[0]) then TrimStart(s[1..]) else s
  }

  function TrimEnd(s: string): string {
    if s != [] && IsSpace(s[|s| - 1]) then TrimEnd(s[..|s| - 1]) else s
  }

  function Trim(s: string): string {
    TrimEnd(TrimStart(s))
  }

  /** `HeaderValue::to_str` succeeds on visible ASCII and tabs only. */
  predicate Visible(value: HeaderValue) {
    forall c <- value :: c == '\t' || 32 <= c as int < 127
  }

  function TrimEndSlashes(s: string): string {
    if s != [] && s[|s| - 1] == '/' then TrimEndSlashes(s[..|s| - 1]) else s
  }

  predicate StartsWithSlash(s: string) {
    s != [] && s[0] == '/'
  }

  /** The ASCII white space. */
  function Spaces(): set<char> {
    {' ', '\t', '\n', '\r', 11 as char, 12 as char}
  }

  /** Trimming takes off white space at both ends, and all of it. */
  lemma TrimIs(s: string) returns (i: nat, j: nat)
    ensures i <= j <= |s| && Trim(s) == s[i..j]
    ensures forall k | 0 <= k < i || j <= k < |s| :: s[k] in Spaces()
    ensures i < j ==> s[i] !in Spaces() && s[j - 1] !in Spaces()
  {
    i := TrimStartIs(s);
    j := TrimEndIs(s[i..]);
    j := i + j;
    assert s[i..][..j - i] == s[i..j];
    assert forall k | j <= k < |s| :: s[k] == s[i..][k - i];
  }

  lemma {:induction false} TrimStartIs(s: string) returns (i: nat)
    ensures i <= |s| && TrimStart(s) == s[i..] && (forall k | 0 <= k < i :: IsSpace(s[k])) && (i < |s| ==> !IsSpace(s[i]))
  {
    i := 0;
    if s != "" && IsSpace(s[0]) {
      i := TrimStartIs(s[1..]);
      i := i + 1;
    }
  }

  lemma {:induction false} TrimEndIs(s: string) returns (j: nat)
    ensures j <= |s| && TrimEnd(s) == s[..j] && (forall k | j <= k < |s| :: IsSpace(s[k])) && (j > 0 ==> !IsSpace(s[j - 1]))
  {
    j := |s|;
    if s != "" && IsSpace(s[|s| - 1]) {
      j := TrimEndIs(s[..|s| - 1]);
      assert s[..|s| - 1][..j] == s[..j];
    } else {
      assert s[..|s|] == s;
    }
  }

  /** Trailing slashes are taken off, all of them and nothing else. */
  lemma {:induction false} TrimEndSlashesIs(s: string) returns (j: nat)
    ensures j <= |s| && TrimEndSlashes(s) == s[..j] && (forall k | j <= k < |s| :: s[k] == '/') && (j > 0 ==> s[j - 1] != '/')
  {
    j := |s|;
    if s != "" && s[|s| - 1] == '/' {
      j := TrimEndSlashesIs(s[..|s| - 1]);
      assert s[..|s| - 1][..j] == s[..j];
    } else {
      assert s[..|s|] == s;
    }
  }
}
