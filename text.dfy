/**
 * The PHP string built-ins the core relies on, over `string` = `seq<char>`:
 * `trim`, `substr_count`, `str_contains`, `str_starts_with`, `str_ends_with`,
 * `str_replace`, `explode`, `implode` and `basename`.
 */
module Text {

  /** The characters PHP's `trim` removes by default: " \t\n\r\0\x0B". */
  predicate IsTrimChar(c: char) {
    c == ' ' || c == '\t' || c == '\n' || c == '\r' || c == '\0' || c == '\U{000B}'
  }

  function TrimLeft(s: string): string {
    if s != [] && IsTrimChar(s[0]) then TrimLeft(s[1..]) else s
  }

  function TrimRight(s: string): string {
    if s != [] && IsTrimChar(s[|s| - 1]) then TrimRight(s[..|s| - 1]) else s
  }

  /** `TrimLeft` drops a prefix made only of trim characters and stops at the first other one. */
  lemma {:induction false} TrimLeftDropsPrefix(s: string)
    ensures var r := TrimLeft(s);
            && |r| <= |s| && r == s[|s| - |r|..]
            && (forall i :: 0 <= i < |s| - |r| ==> IsTrimChar(s[i]))
            && (r == [] || !IsTrimChar(r[0]))
  {
    if s != [] && IsTrimChar(s[0]) {
      var t := s[1..];
      TrimLeftDropsPrefix(t);
      var r := TrimLeft(t);
      assert TrimLeft(s) == r;
      assert t[|t| - |r|..] == s[|s| - |r|..];
      forall i | 0 <= i < |s| - |r|
        ensures IsTrimChar(s[i])
      {
        if i > 0 {
          assert s[i] == t[i - 1];
        }
      }
    }
  }

  /** `TrimRight` drops a suffix made only of trim characters and stops at the last other one. */
  lemma {:induction false} TrimRightDropsSuffix(s: string)
    ensures var r := TrimRight(s);
            && |r| <= |s| && r == s[..|r|]
            && (forall i :: |r| <= i < |s| ==> IsTrimChar(s[i]))
            && (r == [] || !IsTrimChar(r[|r| - 1]))
  {
    if s != [] && IsTrimChar(s[|s| - 1]) {
      TrimRightDropsSuffix(s[..|s| - 1]);
    }
  }

  /** `r` is the slice of `s` starting at `i`, and only trim characters lie outside it. */
  predicate TrimmedAt(s: string, r: string, i: int) {
    && 0 <= i <= |s| - |r| && r == s[i..i + |r|]
    && (forall j :: 0 <= j < i ==> IsTrimChar(s[j]))
    && (forall j :: i + |r| <= j < |s| ==> IsTrimChar(s[j]))
  }

  /** PHP `trim`: the longest slice of `s` that neither starts nor ends with a trim character. */
  function Trim(s: string): string
  {
    TrimRight(TrimLeft(s))
  }

  /** `Trim(s)` is a slice of `s` with only trim characters outside it and none at its ends. */
  lemma TrimIsSlice(s: string)
    ensures exists i :: TrimmedAt(s, Trim(s), i)
    ensures Trim(s) == [] || (!IsTrimChar(Trim(s)[0]) && !IsTrimChar(Trim(s)[|Trim(s)| - 1]))
  {
    var l := TrimLeft(s);
    var r := TrimRight(l);
    TrimLeftDropsPrefix(s);
    TrimRightDropsSuffix(l);
    var i := |s| - |l|;
    assert r == s[i..][..|r|];
    forall j | i + |r| <= j < |s|
      ensures IsTrimChar(s[j])
    {
      assert s[j] == l[j - i];
    }
    assert TrimmedAt(s, r, i);
    assert Trim(s) == r;
    if r != [] {
      assert r[0] == l[0];
    }
  }

  /** Trimming twice is trimming once. */
  lemma TrimIdempotent(s: string)
    ensures Trim(Trim(s)) == Trim(s)
  {
    var t := Trim(s);
    TrimIsSlice(s);
    assert TrimLeft(t) == t;
    TrimRightDropsSuffix(t);
    assert TrimRight(t) == t;
  }

  /** A string that neither starts nor ends with a trim character is its own trim. */
  lemma TrimKeeps(s: string)
    requires s == [] || (!IsTrimChar(s[0]) && !IsTrimChar(s[|s| - 1]))
    ensures Trim(s) == s
  {
    assert TrimLeft(s) == s;
  }

  /** Nothing but trim characters. */
  predicate Padding(s: string) {
    forall c <- s :: IsTrimChar(c)
  }

  /** Trim characters in front of text that does not start with one are all dropped. */
  lemma {:induction false} TrimLeftSkips(a: string, t: string)
    requires Padding(a) && (t == [] || !IsTrimChar(t[0]))
    ensures TrimLeft(a + t) == t
    decreases |a|
  {
    if a == [] {
      assert a + t == t;
    } else {
      assert a[0] in a && (a + t)[0] == a[0];
      assert (a + t)[1..] == a[1..] + t;
      assert forall c <- a[1..] :: c in a;
      TrimLeftSkips(a[1..], t);
    }
  }

  /** Trim characters after text that does not end with one are all dropped. */
  lemma {:induction false} TrimRightSkips(t: string, d: string)
    requires Padding(d) && (t == [] || !IsTrimChar(t[|t| - 1]))
    ensures TrimRight(t + d) == t
    decreases |d|
  {
    if d == [] {
      assert t + d == t;
    } else {
      var s := t + d;
      assert d[|d| - 1] in d && s[|s| - 1] == d[|d| - 1];
      assert s[..|s| - 1] == t + d[..|d| - 1];
      assert forall c <- d[..|d| - 1] :: c in d;
      TrimRightSkips(t, d[..|d| - 1]);
    }
  }

  /** Trimming removes exactly the padding around text that neither starts nor ends with a trim character. */
  lemma TrimPadded(a: string, body: string, d: string)
    requires Padding(a) && Padding(d)
    requires body == [] || (!IsTrimChar(body[0]) && !IsTrimChar(body[|body| - 1]))
    ensures Trim(a + body + d) == body
  {
    if body == [] {
      assert Padding(a + d);
      TrimLeftSkips(a + d, []);
      assert a + body + d == (a + d) + [];
    } else {
      assert a + body + d == a + (body + d);
      TrimLeftSkips(a, body + d);
      TrimRightSkips(body, d);
    }
  }

  /** Trimming adds no character. */
  lemma TrimAddsNothing(s: string, c: char)
    requires c !in s
    ensures c !in Trim(s)
  {
    TrimIsSlice(s);
    var i :| TrimmedAt(s, Trim(s), i);
    assert Trim(s) == s[i..i + |Trim(s)|];
  }

  /** PHP `substr_count` for a one-character needle. */
  function Count(s: string, c: char): (n: nat)
    ensures n <= |s|
  {
    if s == [] then 0 else (if s[0] == c then 1 else 0) + Count(s[1..], c)
  }

  lemma {:induction false} CountAppend(a: string, b: string, c: char)
    ensures Count(a + b, c) == Count(a, c) + Count(b, c)
  {
    if a == [] {
      assert a + b == b;
    } else {
      assert (a + b)[1..] == a[1..] + b;
      CountAppend(a[1..], b, c);
    }
  }

  predicate StartsWith(s: string, prefix: string) {
    |prefix| <= |s| && s[..|prefix|] == prefix
  }

  predicate EndsWith(s: string, suffix: string) {
    |suffix| <= |s| && s[|s| - |suffix|..] == suffix
  }

  /** PHP `str_contains` / `strpos(...) !== false`. */
  predicate Contains(s: string, sub: string) {
    exists i | 0 <= i <= |s| - |sub| :: OccursAt(s, sub, i)
  }

  predicate OccursAt(s: string, sub: string, i: int) {
    0 <= i <= |s| - |sub| && s[i..i + |sub|] == sub
  }

  /** An occurrence stays an occurrence inside a longer string. */
  lemma ContainsInfix(a: string, b: string, c: string, sub: string)
    requires Contains(b, sub)
    ensures Contains(a + b + c, sub)
  {
    var i :| 0 <= i <= |b| - |sub| && OccursAt(b, sub, i);
    var s := a + b + c;
    assert s[|a| + i..|a| + i + |sub|] == b[i..i + |sub|];
    assert OccursAt(s, sub, |a| + i);
  }

  /** Index of the first occurrence of `c` in `s`. */
  function IndexOf(s: string, c: char): (i: nat)
    requires c in s
    ensures i < |s| && s[i] == c && c !in s[..i]
  {
    if s[0] == c then 0 else 1 + IndexOf(s[1..], c)
  }

  /** The first occurrence of `c` is the position before which `c` does not occur. */
  lemma {:induction false} IndexOfAt(s: string, c: char, i: int)
    requires 0 <= i < |s| && s[i] == c && c !in s[..i]
    ensures IndexOf(s, c) == i
    decreases i
  {
    if i > 0 {
      assert s[0] in s[..i];
      assert s[1..][..i - 1] == s[..i][1..];
      IndexOfAt(s[1..], c, i - 1);
    }
  }

  /** PHP `implode(sep, parts)`. */
  function Join(sep: string, parts: seq<string>): (r: string)
    ensures parts == [] ==> r == []
    ensures |parts| == 1 ==> r == parts[0]
  {
    if parts == [] then []
    else if |parts| == 1 then parts[0]
    else parts[0] + sep + Join(sep, parts[1..])
  }

  lemma {:induction false} JoinAppend(sep: string, a: seq<string>, b: seq<string>)
    requires a != [] && b != []
    ensures Join(sep, a + b) == Join(sep, a) + sep + Join(sep, b)
  {
    if |a| == 1 {
      assert (a + b)[1..] == b;
    } else {
      assert (a + b)[1..] == a[1..] + b;
      JoinAppend(sep, a[1..], b);
    }
  }

  /** PHP `explode(sep, s)` for a one-character separator: the pieces between separators. */
  function Split(s: string, sep: char): (parts: seq<string>)
    ensures parts != []
    ensures forall k :: 0 <= k < |parts| ==> sep !in parts[k]
    ensures Join([sep], parts) == s
    decreases |s|
  {
    if sep !in s then [s]
    else
      var i := IndexOf(s, sep);
      var rest := Split(s[i + 1..], sep);
      assert s == s[..i] + [sep] + s[i + 1..];
      [s[..i]] + rest
  }

  /** Splitting at a separator that no part holds gives the joined parts back. */
  lemma {:induction false} SplitJoin(parts: seq<string>, sep: char)
    requires parts != []
    requires forall k :: 0 <= k < |parts| ==> sep !in parts[k]
    ensures Split(Join([sep], parts), sep) == parts
    decreases |parts|
  {
    if |parts| >= 2 {
      var s := Join([sep], parts);
      var rest := Join([sep], parts[1..]);
      assert s == parts[0] + [sep] + rest;
      assert s[|parts[0]|] == sep;
      assert s[..|parts[0]|] == parts[0];
      IndexOfAt(s, sep, |parts[0]|);
      assert s[|parts[0]| + 1..] == rest;
      SplitJoin(parts[1..], sep);
      assert parts == [parts[0]] + parts[1..];
    }
  }

  /**
   * PHP `str_replace(pat, rep, s)`: one left-to-right scan replacing every
   * non-overlapping occurrence of `pat`; the replacement text is not rescanned.
   */
  function ReplaceAll(s: string, pat: string, rep: string): (r: string)
    requires pat != []
    ensures !Contains(s, pat) ==> r == s
    decreases |s|
  {
    if |s| < |pat| then s
    else if s[..|pat|] == pat then
      assert OccursAt(s, pat, 0);
      rep + ReplaceAll(s[|pat|..], pat, rep)
    else
      var rest := ReplaceAll(s[1..], pat, rep);
      assert !Contains(s, pat) ==> !Contains(s[1..], pat) by {
        if Contains(s[1..], pat) {
          var i :| 0 <= i <= |s| - 1 - |pat| && OccursAt(s[1..], pat, i);
          assert s[i + 1..i + 1 + |pat|] == s[1..][i..i + |pat|];
          assert OccursAt(s, pat, i + 1);
        }
      }
      assert s == [s[0]] + s[1..];
      [s[0]] + rest
  }

  /** A character absent from the text and from the replacement is absent from the result. */
  lemma {:induction false} ReplaceAllAddsNothing(s: string, pat: string, rep: string, c: char)
    requires pat != [] && c !in s && c !in rep
    ensures c !in ReplaceAll(s, pat, rep)
    decreases |s|
  {
    if |s| >= |pat| {
      if s[..|pat|] == pat {
        assert forall x <- s[|pat|..] :: x in s;
        ReplaceAllAddsNothing(s[|pat|..], pat, rep, c);
      } else {
        assert forall x <- s[1..] :: x in s;
        ReplaceAllAddsNothing(s[1..], pat, rep, c);
        assert s[0] in s;
      }
    }
  }

  /** Text that cannot start an occurrence of `pat` passes through `ReplaceAll` unchanged. */
  lemma {:induction false} ReplaceAllSkipsPrefix(a: string, t: string, pat: string, rep: string)
    requires pat != [] && pat[0] !in a
    ensures ReplaceAll(a + t, pat, rep) == a + ReplaceAll(t, pat, rep)
  {
    if a == [] {
      assert a + t == t;
    } else {
      var s := a + t;
      if |s| < |pat| {
        assert ReplaceAll(t, pat, rep) == t;
      } else {
        assert s[..|pat|][0] == a[0] != pat[0];
        assert s[1..] == a[1..] + t;
        calc {
          ReplaceAll(s, pat, rep);
          [s[0]] + ReplaceAll(s[1..], pat, rep);
          { ReplaceAllSkipsPrefix(a[1..], t, pat, rep); }
          [a[0]] + (a[1..] + ReplaceAll(t, pat, rep));
          { assert [a[0]] + a[1..] == a; }
          a + ReplaceAll(t, pat, rep);
        }
      }
    }
  }

  /** PHP `basename`: trailing slashes dropped, then everything after the last slash. */
  function Basename(path: string): (r: string)
    ensures '/' !in r
    ensures |r| <= |path|
  {
    AfterLastSlash(DropTrailingSlashes(path))
  }

  function DropTrailingSlashes(s: string): (r: string)
    ensures |r| <= |s| && r == s[..|r|]
    ensures r == [] || r[|r| - 1] != '/'
  {
    if s != [] && s[|s| - 1] == '/' then DropTrailingSlashes(s[..|s| - 1]) else s
  }

  function AfterLastSlash(s: string): (r: string)
    ensures '/' !in r
    ensures |r| <= |s| && r == s[|s| - |r|..]
  {
    if s == [] then []
    else if s[|s| - 1] == '/' then []
    else AfterLastSlash(s[..|s| - 1]) + [s[|s| - 1]]
  }

  /** The basename of `dir + name` is `name` when `dir` ends with a slash and `name` has none. */
  lemma {:induction false} BasenameOfEntry(dir: string, name: string)
    requires EndsWith(dir, "/") && name != [] && '/' !in name
    ensures Basename(dir + name) == name
  {
    var s := dir + name;
    assert DropTrailingSlashes(s) == s;
    AfterLastSlashOfEntry(dir, name);
  }

  lemma {:induction false} AfterLastSlashOfEntry(dir: string, name: string)
    requires EndsWith(dir, "/") && '/' !in name
    ensures AfterLastSlash(dir + name) == name
  {
    if name == [] {
      assert dir + name == dir;
    } else {
      var s := dir + name;
      assert s[..|s| - 1] == dir + name[..|name| - 1];
      AfterLastSlashOfEntry(dir, name[..|name| - 1]);
    }
  }
}
