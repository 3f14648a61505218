/** Strings as C sees them: they end at the first NUL byte. */
module CString {

  const NUL: char := '\0'

  predicate NulFree(s: string) {
    NUL !in s
  }

  /** Where the C string at the start of these bytes ends; the length if it runs off the end. */
  function FirstNul(bytes: seq<char>): (k: nat)
    ensures k <= |bytes|
    ensures '\0' !in bytes[..k]
    ensures k < |bytes| ==> bytes[k] == '\0'
  {
    if bytes == [] || bytes[0] == NUL then 0
    else
      var k := 1 + FirstNul(bytes[1..]);
      assert bytes[..k] == [bytes[0]] + bytes[1..][..k - 1];
      k
  }

  /** What a C string shows of a string. */
  function CStr(s: string): string {
    s[..FirstNul(s)]
  }

  lemma FirstNulExactly(s: string, k: nat)
    requires k <= |s| && NulFree(s[..k]) && (k < |s| ==> s[k] == NUL)
    ensures FirstNul(s) == k
  {
    var f := FirstNul(s);
    assert forall i :: 0 <= i < k ==> s[i] == s[..k][i];
    assert forall i :: 0 <= i < f ==> s[i] == s[..f][i];
  }

  lemma CStrWhole(s: string)
    ensures CStr(s) == s <==> NulFree(s)
  {
    if NulFree(s) {
      assert s[..|s|] == s;
      FirstNulExactly(s, |s|);
    }
  }

  /** Showing a string whose tail was shown already shows no less. */
  lemma CStrConcat(a: string, b: string)
    ensures CStr(a + CStr(b)) == CStr(a + b)
  {
    var k, m := FirstNul(a), FirstNul(b);
    if k < |a| {
      assert (a + b)[..k] == a[..k] && (a + CStr(b))[..k] == a[..k];
      FirstNulExactly(a + b, k);
      FirstNulExactly(a + CStr(b), k);
    } else {
      assert a[..k] == a;
      assert (a + b)[..|a| + m] == a + CStr(b);
      FirstNulExactly(a + b, |a| + m);
      CStrWhole(a + CStr(b));
    }
  }
}
