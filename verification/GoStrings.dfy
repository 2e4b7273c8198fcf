/** The parts of Go's `strings` package the modelled code calls, with their laws. */
module GoStrings {

  datatype Option<+T> = None | Some(value: T)

  datatype Result<+T> = Ok(value: T) | Err(error: string)

  predicate HasPrefix(s: string, prefix: string) {
    prefix <= s
  }

  predicate HasSuffix(s: string, suffix: string) {
    |suffix| <= |s| && s[|s| - |suffix|..] == suffix
  }

  function TrimPrefix(s: string, prefix: string): string {
    if HasPrefix(s, prefix) then s[|prefix|..] else s
  }

  function TrimSuffix(s: string, suffix: string): string {
    if HasSuffix(s, suffix) then s[..|s| - |suffix|] else s
  }

  /** strings.Index: the leftmost position of `sep`, or None. */
  function Index(s: string, sep: string): (at: Option<nat>)
    ensures at.Some? ==> at.value + |sep| <= |s| && sep <= s[at.value..]
  {
    if sep <= s then Some(0)
    else if s == "" then None
    else match Index(s[1..], sep)
      case None => None
      case Some(i) => Some(i + 1)
  }

  predicate Contains(s: string, sep: string) {
    Index(s, sep).Some?
  }

  /** strings.Split for a non-empty separator. */
  function Split(s: string, sep: string): (parts: seq<string>)
    requires sep != ""
    ensures |parts| >= 1
    decreases |s|
  {
    match Index(s, sep)
    case None => [s]
    case Some(i) => [s[..i]] + Split(s[i + |sep|..], sep)
  }

  /** strings.SplitN(s, sep, 2). */
  function SplitN2(s: string, sep: string): (parts: seq<string>)
    ensures 1 <= |parts| <= 2
  {
    match Index(s, sep)
    case None => [s]
    case Some(i) => [s[..i], s[i + |sep|..]]
  }

  function Join(parts: seq<string>, sep: string): string {
    if |parts| == 0 then ""
    else if |parts| == 1 then parts[0]
    else parts[0] + sep + Join(parts[1..], sep)
  }

  /** unicode.IsSpace. */
  predicate IsSpace(c: char) {
    var n := c as int;
    || 0x09 <= n <= 0x0D || n == 0x20 || n == 0x85 || n == 0xA0 || n == 0x1680
    || 0x2000 <= n <= 0x200A || n == 0x2028 || n == 0x2029 || n == 0x202F || n == 0x205F || n == 0x3000
  }

  /** Among the ASCII characters: tab, line feed, vertical tab, form feed, carriage return and space. */
  lemma AsciiSpaces(c: char)
    requires c as int < 0x80
    ensures IsSpace(c) <==> c in ['\t', '\n', 0x0B as char, 0x0C as char, '\r', ' ']
  {
  }

  predicate Blank(s: string) {
    forall i | 0 <= i < |s| :: IsSpace(s[i])
  }

  function TrimLeft(s: string): (t: string)
    ensures t != "" ==> !IsSpace(t[0])
    ensures Blank(s) <==> t == ""
  {
    if s == "" then "" else if IsSpace(s[0]) then TrimLeft(s[1..]) else s
  }

  function TrimRight(s: string): (t: string)
    ensures t <= s
    ensures t != "" ==> !IsSpace(t[|t| - 1])
    ensures Blank(s) <==> t == ""
  {
    if s == "" then "" else if IsSpace(s[|s| - 1]) then TrimRight(s[..|s| - 1]) else s
  }

  /** strings.TrimSpace. */
  function TrimSpace(s: string): (t: string)
    ensures Blank(s) <==> t == ""
    ensures t != "" ==> !IsSpace(t[0]) && !IsSpace(t[|t| - 1])
  {
    TrimRight(TrimLeft(s))
  }

  /** A text with no white space at either end. */
  predicate Trimmed(s: string) {
    s == "" || (!IsSpace(s[0]) && !IsSpace(s[|s| - 1]))
  }

  lemma {:induction false} TrimLeftDropsBlank(pre: string, s: string)
    requires Blank(pre)
    ensures TrimLeft(pre + s) == TrimLeft(s)
  {
    if pre == "" {
      assert pre + s == s;
    } else {
      assert (pre + s)[1..] == pre[1..] + s;
      TrimLeftDropsBlank(pre[1..], s);
    }
  }

  lemma {:induction false} TrimRightDropsBlank(s: string, post: string)
    requires Blank(post)
    ensures TrimRight(s + post) == TrimRight(s)
  {
    if post == "" {
      assert s + post == s;
    } else {
      assert (s + post)[..|s + post| - 1] == s + post[..|post| - 1];
      TrimRightDropsBlank(s, post[..|post| - 1]);
    }
  }

  /** White space around a trimmed core is exactly what TrimSpace removes. */
  lemma TrimSpaceOfPadded(pre: string, core: string, post: string)
    requires Blank(pre) && Blank(post) && Trimmed(core)
    ensures TrimSpace(pre + core + post) == core
  {
    assert pre + core + post == pre + (core + post);
    TrimLeftDropsBlank(pre, core + post);
    if core == "" {
      assert core + post == post;
    } else {
      assert (core + post)[0] == core[0];
      TrimRightDropsBlank(core, post);
    }
  }

  /** A separator that does not occur in `a`, nor across its end, is first found right after `a`. */
  lemma {:induction false} IndexAfter(a: string, c: char, b: string)
    requires c !in a
    ensures Index(a + [c] + b, [c]) == Some(|a|)
  {
    var s := a + [c] + b;
    if a == "" {
      assert [c] <= s;
    } else {
      assert s[0] == a[0];
      assert s[1..] == a[1..] + [c] + b;
      IndexAfter(a[1..], c, b);
    }
  }

  lemma TrimSpaceOfTrimmed(s: string)
    requires Trimmed(s)
    ensures TrimSpace(s) == s
  {
    TrimSpaceOfPadded("", s, "");
    assert "" + s + "" == s;
  }

  /** The separator starts at none of the first `n` positions. */
  predicate NotBefore(s: string, sep: string, n: nat)
    requires n <= |s|
  {
    forall i | 0 <= i < n :: !(sep <= s[i..])
  }

  lemma NotBeforeTail(s: string, sep: string, n: nat)
    requires 0 < n <= |s| && NotBefore(s, sep, n)
    ensures !(sep <= s) && NotBefore(s[1..], sep, n - 1)
  {
    assert s[0..] == s;
    forall i | 0 <= i < n - 1 ensures !(sep <= s[1..][i..]) {
      assert s[1..][i..] == s[i + 1..];
    }
  }

  lemma {:induction false} IndexFirst(s: string, sep: string, n: nat)
    requires n <= |s| && sep <= s[n..] && NotBefore(s, sep, n)
    ensures Index(s, sep) == Some(n)
  {
    if n == 0 {
      assert s[0..] == s;
    } else {
      NotBeforeTail(s, sep, n);
      assert s[1..][n - 1..] == s[n..];
      IndexFirst(s[1..], sep, n - 1);
    }
  }

  lemma {:induction false} IndexAbsent(a: string, c: char)
    ensures Index(a, [c]).None? <==> c !in a
  {
    if a != "" {
      IndexAbsent(a[1..], c);
      assert [c] <= a <==> a[0] == c;
      assert a == [a[0]] + a[1..];
    }
  }

  /** Splitting at a separator character that the head part does not hold. */
  lemma SplitCons(a: string, c: char, b: string)
    requires c !in a
    ensures Split(a + [c] + b, [c]) == [a] + Split(b, [c])
  {
    var s := a + [c] + b;
    IndexAfter(a, c, b);
    assert s[..|a|] == a && s[|a| + 1..] == b;
  }

  lemma SplitSingle(a: string, c: char)
    requires c !in a
    ensures Split(a, [c]) == [a]
  {
    IndexAbsent(a, c);
  }

  /** Split undoes Join when no part holds the separator. */
  lemma {:induction false} SplitOfJoin(parts: seq<string>, c: char)
    requires |parts| >= 1
    requires forall i | 0 <= i < |parts| :: c !in parts[i]
    ensures Split(Join(parts, [c]), [c]) == parts
  {
    if |parts| == 1 {
      SplitSingle(parts[0], c);
    } else {
      SplitOfJoin(parts[1..], c);
      SplitCons(parts[0], c, Join(parts[1..], [c]));
    }
  }

  /** The parts of a text whose line ends are a carriage return and a line feed, split at the line feeds. */
  function Returned(parts: seq<string>): seq<string> {
    if |parts| <= 1 then parts else [parts[0] + "\r"] + Returned(parts[1..])
  }

  lemma {:induction false} JoinOfReturned(parts: seq<string>)
    requires |parts| >= 1 && forall i | 0 <= i < |parts| :: '\n' !in parts[i]
    ensures |Returned(parts)| >= 1
    ensures Join(Returned(parts), "\n") == Join(parts, "\r\n")
    ensures forall i | 0 <= i < |Returned(parts)| :: '\n' !in Returned(parts)[i]
  {
    if |parts| > 1 {
      JoinOfReturned(parts[1..]);
      var rest := Returned(parts[1..]);
      assert Returned(parts)[0] == parts[0] + "\r" && Returned(parts)[1..] == rest;
      ReturnThenFeed(parts[0], Join(rest, "\n"));
    }
  }

  lemma ReturnThenFeed(head: string, tail: string)
    ensures head + "\r" + "\n" + tail == head + "\r\n" + tail
  {
  }
}
