/** The few Python string operations the naming code uses: `sep.join(parts)`,
    `s.strip()` and `s.replace(" ", "")`. */
module Text {

  /** The characters Python's `str.isspace()` accepts, which `str.strip()` removes. */
  predicate IsPySpace(c: char) {
    || c == ' ' || c == '\t' || c == '\n' || c == '\r'
    || c == '\U{000B}' || c == '\U{000C}'
    || ('\U{001C}' <= c <= '\U{001F}')
    || c == '\U{0085}' || c == '\U{00A0}' || c == '\U{1680}'
    || ('\U{2000}' <= c <= '\U{200A}')
    || c == '\U{2028}' || c == '\U{2029}' || c == '\U{202F}' || c == '\U{205F}' || c == '\U{3000}'
  }

  /** `sep.join(parts)`. */
  function Join(parts: seq<string>, sep: string): string {
    if |parts| == 0 then ""
    else if |parts| == 1 then parts[0]
    else parts[0] + sep + Join(parts[1..], sep)
  }

  /** The joined string is as long as its parts plus one separator between each two. */
  lemma {:induction false} JoinLength(parts: seq<string>, sep: string)
    ensures |Join(parts, sep)| == TotalLength(parts) + (if |parts| == 0 then 0 else (|parts| - 1) * |sep|)
  {
    if |parts| > 1 {
      JoinLength(parts[1..], sep);
    }
  }

  function TotalLength(parts: seq<string>): nat {
    if |parts| == 0 then 0 else |parts[0]| + TotalLength(parts[1..])
  }

  predicate AllSpace(s: string) {
    forall k :: 0 <= k < |s| ==> IsPySpace(s[k])
  }

  /** How many whitespace characters `s` starts with. */
  function LeadingSpaces(s: string): (n: nat)
    ensures n <= |s| && AllSpace(s[..n])
    ensures n < |s| ==> !IsPySpace(s[n])
  {
    if |s| > 0 && IsPySpace(s[0]) then
      var m := LeadingSpaces(s[1..]);
      assert AllSpace(s[..m + 1]) by {
        var p := s[..m + 1];
        forall k | 0 <= k < |p| ensures IsPySpace(p[k]) {
          if k > 0 { assert p[k] == s[1..][..m][k - 1]; }
        }
      }
      assert m + 1 < |s| ==> s[m + 1] == s[1..][m];
      m + 1
    else 0
  }

  /** How many whitespace characters `s` ends with. */
  function TrailingSpaces(s: string): (n: nat)
    ensures n <= |s| && AllSpace(s[|s| - n..])
    ensures n < |s| ==> !IsPySpace(s[|s| - n - 1])
  {
    if |s| > 0 && IsPySpace(s[|s| - 1]) then
      var t := s[..|s| - 1];
      var m := TrailingSpaces(t);
      assert AllSpace(s[|s| - (m + 1)..]) by {
        var p := s[|s| - (m + 1)..];
        forall k | 0 <= k < |p| ensures IsPySpace(p[k]) {
          if k < m { assert p[k] == t[|t| - m..][k]; }
        }
      }
      assert m + 1 < |s| ==> s[|s| - (m + 1) - 1] == t[|t| - m - 1];
      m + 1
    else 0
  }

  /** `r` is `s` with some whitespace cut from each end. */
  predicate TrimmedFrom(s: string, r: string) {
    exists i, j :: 0 <= i <= j <= |s| && r == s[i..j] && AllSpace(s[..i]) && AllSpace(s[j..])
  }

  /** `r` neither starts nor ends in whitespace. */
  predicate NoEdgeSpace(r: string) {
    |r| > 0 ==> !IsPySpace(r[0]) && !IsPySpace(r[|r| - 1])
  }

  /** `s.strip()`: `s` with its leading and trailing whitespace removed, and nothing else. */
  function Strip(s: string): (r: string)
    ensures TrimmedFrom(s, r)
    ensures NoEdgeSpace(r)
  {
    var i := LeadingSpaces(s);
    var m := TrailingSpaces(s);
    if i == |s| then
      TrimmedAt(s, i, i);
      ""
    else
      assert i < |s| - m;
      TrimmedAt(s, i, |s| - m);
      s[i..|s| - m]
  }

  /** Cutting whitespace-only ends at `i` and `j` trims `s`, and leaves no
      whitespace at the ends when the cuts stop at other characters. */
  lemma TrimmedAt(s: string, i: int, j: int)
    requires 0 <= i <= j <= |s| && AllSpace(s[..i]) && AllSpace(s[j..])
    requires i < j ==> !IsPySpace(s[i]) && !IsPySpace(s[j - 1])
    ensures TrimmedFrom(s, s[i..j])
    ensures NoEdgeSpace(s[i..j])
  {
    var r := s[i..j];
    if |r| > 0 {
      assert r[0] == s[i] && r[|r| - 1] == s[j - 1];
    }
  }

  /** A string that neither starts nor ends in whitespace is its own strip. */
  lemma StripUnchanged(s: string)
    requires |s| > 0 ==> !IsPySpace(s[0]) && !IsPySpace(s[|s| - 1])
    ensures Strip(s) == s
  {
    assert LeadingSpaces(s) == 0;
    assert s[0..] == s;
    assert TrailingSpaces(s) == 0;
  }

  /** Stripping ignores one trailing space. */
  lemma StripTrailingSpace(s: string)
    requires |s| > 0 && !IsPySpace(s[0]) && !IsPySpace(s[|s| - 1])
    ensures Strip(s + " ") == s
  {
    var t := s + " ";
    assert LeadingSpaces(t) == 0;
    assert t[0..] == t;
    assert t[..|t| - 1] == s;
    assert TrailingSpaces(s) == 0;
    assert TrailingSpaces(t) == 1;
  }

  /** Whitespace before a character that is not whitespace is exactly the
      leading run. */
  lemma {:induction false} LeadingSpacesOf(pre: string, rest: string)
    requires AllSpace(pre)
    requires |rest| > 0 ==> !IsPySpace(rest[0])
    ensures LeadingSpaces(pre + rest) == |pre|
  {
    if |pre| == 0 {
      assert pre + rest == rest;
    } else {
      assert (pre + rest)[0] == pre[0];
      assert (pre + rest)[1..] == pre[1..] + rest;
      LeadingSpacesOf(pre[1..], rest);
    }
  }

  /** Whitespace after a character that is not whitespace is exactly the
      trailing run. */
  lemma {:induction false} TrailingSpacesOf(rest: string, post: string)
    requires AllSpace(post)
    requires |rest| > 0 ==> !IsPySpace(rest[|rest| - 1])
    ensures TrailingSpaces(rest + post) == |post|
  {
    if |post| == 0 {
      assert rest + post == rest;
    } else {
      var s := rest + post;
      var n := |post| - 1;
      assert s[|s| - 1] == post[n];
      assert s[..|s| - 1] == rest + post[..n];
      TrailingSpacesOf(rest, post[..n]);
    }
  }

  /** Stripping cuts exactly the surrounding whitespace: whatever sits between
      whitespace-only ends, and has no whitespace at its own ends, is what
      `strip()` returns. */
  lemma StripSurrounded(pre: string, t: string, post: string)
    requires AllSpace(pre) && AllSpace(post) && NoEdgeSpace(t)
    ensures Strip(pre + t + post) == t
  {
    var s := pre + t + post;
    if |t| == 0 {
      assert s == pre + post;
      LeadingSpacesOf(pre + post, "");
      assert pre + post + "" == pre + post;
    } else {
      assert s == pre + (t + post);
      LeadingSpacesOf(pre, t + post);
      assert s == (pre + t) + post;
      TrailingSpacesOf(pre + t, post);
      assert s[|pre|..|s| - |post|] == t;
    }
  }

  /** `s.replace(" ", "")`: every character but the space kept, in order. */
  function RemoveSpaces(s: string): (r: string)
    ensures ' ' !in r
    ensures forall c :: c != ' ' ==> multiset(r)[c] == multiset(s)[c]
    ensures multiset(s)[' '] == 0 ==> r == s
  {
    if |s| == 0 then ""
    else
      var rest := RemoveSpaces(s[1..]);
      assert s == [s[0]] + s[1..];
      if s[0] == ' ' then rest else [s[0]] + rest
  }

  /** A single character survives unless it is a space. */
  lemma RemoveSpacesOne(c: char)
    ensures RemoveSpaces([c]) == if c == ' ' then "" else [c]
  {
    assert [c][1..] == "";
  }

  /** Removing the spaces of a concatenation removes them from each part:
      the surviving characters keep their order. */
  lemma {:induction false} RemoveSpacesAppend(a: string, b: string)
    ensures RemoveSpaces(a + b) == RemoveSpaces(a) + RemoveSpaces(b)
  {
    if |a| == 0 {
      assert a + b == b;
    } else {
      assert (a + b)[0] == a[0];
      assert (a + b)[1..] == a[1..] + b;
      RemoveSpacesAppend(a[1..], b);
      if a[0] != ' ' {
        assert [a[0]] + (RemoveSpaces(a[1..]) + RemoveSpaces(b)) == ([a[0]] + RemoveSpaces(a[1..])) + RemoveSpaces(b);
      }
    }
  }
}
