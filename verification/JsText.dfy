/** What several of the modelled files take from JavaScript: optional values and white space. */
module JsText {

  datatype Option<+T> = None | Some(value: T)

  /** The characters that `trim` removes and that `\s` matches. */
  predicate IsSpace(c: char) {
    c in {'\t', '\n', '\U{B}', '\U{C}', '\r', ' ', '\U{A0}', '\U{1680}', '\U{2028}', '\U{2029}', '\U{202F}',
          '\U{205F}', '\U{3000}', '\U{FEFF}'}
    || '\U{2000}' <= c <= '\U{200A}'
  }

  /** Exactly the white space and line ends of sections 12.2 and 12.3 of ECMA-262, by code. */
  lemma SpaceCodes(c: char)
    ensures var n := c as int;
            IsSpace(c) <==> 9 <= n <= 13 || n == 32 || n == 160 || n == 5760 || 8192 <= n <= 8202 || n == 8232
                            || n == 8233 || n == 8239 || n == 8287 || n == 12288 || n == 65279
  {}

  function TrimStart(s: string): string
    decreases |s|
  {
    if s != "" && IsSpace(s[0]) then TrimStart(s[1..]) else s
  }

  function TrimEnd(s: string): string
    decreases |s|
  {
    if s != "" && IsSpace(s[|s| - 1]) then TrimEnd(s[..|s| - 1]) else s
  }

  function Trim(s: string): string { TrimEnd(TrimStart(s)) }

  ghost predicate Blank(s: string) { forall i :: 0 <= i < |s| ==> IsSpace(s[i]) }

  /** What is left of s between i and j starts and ends with no white space, and what is cut
      off is nothing else. */
  ghost predicate Strips(s: string, i: int, j: int) {
    && 0 <= i < j <= |s| && !IsSpace(s[i]) && !IsSpace(s[j - 1])
    && forall k :: 0 <= k < i || j <= k < |s| ==> IsSpace(s[k])
  }

  lemma {:induction false} TrimStartExact(s: string) returns (i: nat)
    ensures i <= |s| && TrimStart(s) == s[i..] && (i < |s| ==> !IsSpace(s[i]))
    ensures forall k :: 0 <= k < i ==> IsSpace(s[k])
    decreases |s|
  {
    hide IsSpace;
    if s != "" && IsSpace(s[0]) {
      var rest := TrimStartExact(s[1..]);
      i := rest + 1;
      forall k | 0 <= k < i
        ensures IsSpace(s[k])
      {
        assert k > 0 ==> s[1..][k - 1] == s[k];
      }
    } else {
      i := 0;
    }
  }

  lemma {:induction false} TrimEndExact(s: string) returns (j: nat)
    ensures j <= |s| && TrimEnd(s) == s[..j] && (j > 0 ==> !IsSpace(s[j - 1]))
    ensures forall k :: j <= k < |s| ==> IsSpace(s[k])
    decreases |s|
  {
    hide IsSpace;
    if s != "" && IsSpace(s[|s| - 1]) {
      j := TrimEndExact(s[..|s| - 1]);
    } else {
      j := |s|;
    }
  }

  /** Trimming leaves nothing of a blank text, and of any other the slice without the white
      space around it. */
  lemma TrimExact(s: string)
    ensures Trim(s) == "" <==> Blank(s)
    ensures !Blank(s) ==> exists i, j :: Strips(s, i, j) && Trim(s) == s[i..j]
  {
    hide IsSpace;
    var i := TrimStartExact(s);
    var j := TrimEndExact(s[i..]);
    assert Trim(s) == s[i..][..j];
    forall k | i + j <= k < |s|
      ensures IsSpace(s[k])
    {
      assert s[i..][k - i] == s[k];
    }
    if i < |s| {
      assert s[i..][0] == s[i];
      assert j > 0;
      assert Strips(s, i, i + j);
    }
  }
}
