/**
 * The java.lang.String and Apache commons-lang StringUtils operations that the
 * connector relies on, with the semantics those libraries give them.
 */
module JavaStrings {
  import opened Wrappers

  /** A Java String reference: None stands for null. */
  type JString = Option<string>

  /** Character.isWhitespace: the test behind StringUtils.isBlank. */
  predicate IsWhitespace(c: char) {
    || c == ' '
    || ('\t' <= c <= '\r')
    || ('\U{1C}' <= c <= '\U{1F}')
    || c == '\U{1680}'
    || ('\U{2000}' <= c <= '\U{2006}')
    || ('\U{2008}' <= c <= '\U{200A}')
    || c == '\U{2028}' || c == '\U{2029}' || c == '\U{205F}' || c == '\U{3000}'
  }

  /** String.trim removes the characters at or below U+0020 (a different set from IsWhitespace). */
  predicate IsTrimmed(c: char) {
    c <= ' '
  }

  /** StringUtils.isBlank: null, empty, or whitespace only. */
  predicate IsBlank(s: JString) {
    s.None? || forall i :: 0 <= i < |s.value| ==> IsWhitespace(s.value[i])
  }

  /** StringUtils.isEmpty: null or of length zero. */
  predicate IsEmpty(s: JString) {
    s.None? || s.value == ""
  }

  /** StringUtils.isNotEmpty. */
  predicate IsNotEmpty(s: JString) {
    !IsEmpty(s)
  }

  /** Drops the leading characters String.trim removes. */
  function TrimStart(s: string): string
    decreases |s|
  {
    if s != [] && IsTrimmed(s[0]) then TrimStart(s[1..]) else s
  }

  /** Drops the trailing characters String.trim removes. */
  function TrimEnd(s: string): string
    decreases |s|
  {
    if s != [] && IsTrimmed(s[|s| - 1]) then TrimEnd(s[..|s| - 1]) else s
  }

  /** String.trim. */
  function Trim(s: string): string {
    TrimEnd(TrimStart(s))
  }

  /** TrimStart removes a run of trimmable characters from the front and stops at the first other one. */
  lemma {:induction false} TrimStartSpec(s: string)
    ensures var r := TrimStart(s);
      && |r| <= |s| && r == s[|s| - |r|..]
      && (forall k :: 0 <= k < |s| - |r| ==> IsTrimmed(s[k]))
      && (r == [] || !IsTrimmed(r[0]))
    decreases |s|
  {
    if s != [] && IsTrimmed(s[0]) {
      TrimStartSpec(s[1..]);
      var r := TrimStart(s);
      forall k | 0 <= k < |s| - |r| ensures IsTrimmed(s[k]) {
        if k > 0 {
          assert s[k] == s[1..][k - 1];
        }
      }
    }
  }

  /** TrimEnd removes a run of trimmable characters from the back and stops at the last other one. */
  lemma {:induction false} TrimEndSpec(s: string)
    ensures var r := TrimEnd(s);
      && |r| <= |s| && r == s[..|r|]
      && (forall k :: |r| <= k < |s| ==> IsTrimmed(s[k]))
      && (r == [] || !IsTrimmed(r[|r| - 1]))
    decreases |s|
  {
    if s != [] && IsTrimmed(s[|s| - 1]) {
      TrimEndSpec(s[..|s| - 1]);
      var r := TrimEnd(s);
      forall k | |r| <= k < |s| ensures IsTrimmed(s[k]) {
        if k < |s| - 1 {
          assert s[k] == s[..|s| - 1][k];
        }
      }
    }
  }

  /** Trim yields the slice of its argument between the removable ends. */
  lemma TrimIsSlice(s: string)
    ensures exists i, j ::
              (&& 0 <= i <= j <= |s| && Trim(s) == s[i..j]
               && (forall k :: 0 <= k < i ==> IsTrimmed(s[k]))
               && (forall k :: j <= k < |s| ==> IsTrimmed(s[k])))
    ensures Trim(s) == [] || (!IsTrimmed(Trim(s)[0]) && !IsTrimmed(Trim(s)[|Trim(s)| - 1]))
  {
    var t := TrimStart(s);
    TrimStartSpec(s);
    TrimEndSpec(t);
    var i := |s| - |t|;
    var j := i + |TrimEnd(t)|;
    assert Trim(s) == s[i..j];
    forall k | j <= k < |s| ensures IsTrimmed(s[k]) {
      assert s[k] == t[k - i];
    }
  }

  /** Trimming twice is trimming once. */
  lemma TrimIdempotent(s: string)
    ensures Trim(Trim(s)) == Trim(s)
  {
    TrimIsSlice(s);
    var t := Trim(s);
    if t != [] {
      assert TrimStart(t) == t;
      assert TrimEnd(t) == t;
    }
  }

  /** Trim leaves nothing exactly when every character is one it removes. */
  lemma TrimEmpty(s: string)
    ensures Trim(s) == [] <==> forall k :: 0 <= k < |s| ==> IsTrimmed(s[k])
  {
    TrimIsSlice(s);
    if Trim(s) == [] {
      var i, j :| 0 <= i <= j <= |s| && Trim(s) == s[i..j]
        && (forall k :: 0 <= k < i ==> IsTrimmed(s[k]))
        && (forall k :: j <= k < |s| ==> IsTrimmed(s[k]));
      forall k | 0 <= k < |s| ensures IsTrimmed(s[k]) {
        assert k < i || j <= k;
      }
    } else {
      assert !IsTrimmed(Trim(s)[0]);
    }
  }

  /** StringUtils.trimToNull: null and strings that trim to "" become null. */
  function TrimToNull(s: JString): (r: JString)
    ensures r.None? <==> s.None? || Trim(s.value) == []
    ensures r.Some? ==> r.value == Trim(s.value) && r.value != []
  {
    if s.None? then None
    else
      var t := Trim(s.value);
      if t == "" then None else Some(t)
  }

  /** A string that starts and ends with a character trim keeps is its own trimmed form. */
  lemma TrimToNullKeeps(s: string)
    requires s != [] && !IsTrimmed(s[0]) && !IsTrimmed(s[|s| - 1])
    ensures Trim(s) == s && TrimToNull(Some(s)) == Some(s)
  {
  }

  /** StringUtils.trimToEmpty: null becomes "", anything else is trimmed. */
  function TrimToEmpty(s: JString): (r: string)
    ensures s.None? ==> r == ""
    ensures s.Some? ==> r == Trim(s.value)
  {
    if s.None? then "" else Trim(s.value)
  }

  /** A character that isBlank accepts as content but trim removes: blank-check and trim disagree. */
  lemma ControlCharacterIsNotBlankButTrimsAway()
    ensures !IsBlank(Some("\U{0}")) && Trim("\U{0}") == ""
  {
    assert !IsWhitespace("\U{0}"[0]);
  }

  /** String.lastIndexOf for a one-character separator: -1 when it does not occur. */
  function LastIndexOf(s: string, c: char): (k: int)
    ensures -1 <= k < |s|
    ensures k >= 0 ==> s[k] == c && forall j :: k < j < |s| ==> s[j] != c
    ensures k == -1 ==> forall j :: 0 <= j < |s| ==> s[j] != c
    decreases |s|
  {
    if s == [] then -1
    else if s[|s| - 1] == c then |s| - 1
    else LastIndexOf(s[..|s| - 1], c)
  }

  /** StringUtils.substringBeforeLast(s, sep) for a one-character separator. */
  function SubstringBeforeLast(s: string, sep: char): string {
    var pos := LastIndexOf(s, sep);
    if s == "" || pos == -1 then s else s[..pos]
  }

  /** StringUtils.substringAfterLast(s, sep) for a one-character separator. */
  function SubstringAfterLast(s: string, sep: char): string {
    var pos := LastIndexOf(s, sep);
    if s == "" then s
    else if pos == -1 || pos == |s| - 1 then ""
    else s[pos + 1..]
  }

  /** The two halves around the last separator put the string back together;
      without a separator the whole string is the "before" part and the "after" part is empty. */
  lemma SubstringsAroundLast(s: string, sep: char)
    ensures sep in s ==> s == SubstringBeforeLast(s, sep) + [sep] + SubstringAfterLast(s, sep)
    ensures sep in s ==> sep !in SubstringAfterLast(s, sep)
    ensures sep !in s ==> SubstringBeforeLast(s, sep) == s && SubstringAfterLast(s, sep) == ""
  {
    var pos := LastIndexOf(s, sep);
    if sep in s {
      var i :| 0 <= i < |s| && s[i] == sep;
      assert pos >= 0;
      assert s == s[..pos] + [sep] + s[pos + 1..];
    }
  }

  /** The "before" part of a string whose after-part is free of the separator. */
  lemma SubstringBeforeLastOfJoin(a: string, sep: char, b: string)
    requires sep !in b
    ensures SubstringBeforeLast(a + [sep] + b, sep) == a
  {
    var s := a + [sep] + b;
    assert s[|a|] == sep;
    var pos := LastIndexOf(s, sep);
    forall j | |a| < j < |s| ensures s[j] != sep {
      assert s[j] == b[j - |a| - 1];
    }
    assert pos == |a|;
    assert s[..pos] == a;
  }

  /** Length of the leading run of s that contains no separator. */
  function TokenLength(s: string, sep: char): (n: nat)
    ensures n <= |s|
    ensures forall k :: 0 <= k < n ==> s[k] != sep
    ensures n < |s| ==> s[n] == sep
    decreases |s|
  {
    if s == [] || s[0] == sep then 0 else 1 + TokenLength(s[1..], sep)
  }

  /** StringUtils.split(s, separatorChars) with one separator: the maximal non-empty runs
      without a separator, in order (adjacent separators yield no empty token). */
  function Split(s: string, sep: char): (tokens: seq<string>)
    ensures forall i :: 0 <= i < |tokens| ==> tokens[i] != [] && sep !in tokens[i]
    decreases |s|
  {
    if s == [] then []
    else if s[0] == sep then Split(s[1..], sep)
    else
      var n := TokenLength(s, sep);
      [s[..n]] + Split(s[n..], sep)
  }

  /** Joins tokens with a separator in between. */
  function Join(tokens: seq<string>, sep: char): string {
    if tokens == [] then ""
    else if |tokens| == 1 then tokens[0]
    else tokens[0] + [sep] + Join(tokens[1..], sep)
  }

  /** Leading separators contribute no token. */
  lemma SplitLeadingSeparator(s: string, sep: char)
    ensures Split([sep] + s, sep) == Split(s, sep)
  {
    assert ([sep] + s)[1..] == s;
  }

  /** Splitting joined tokens gives them back when none is empty or holds the separator. */
  lemma {:induction false} SplitJoin(tokens: seq<string>, sep: char)
    requires forall i :: 0 <= i < |tokens| ==> tokens[i] != [] && sep !in tokens[i]
    ensures Split(Join(tokens, sep), sep) == tokens
    decreases |tokens|
  {
    if tokens != [] {
      var t := tokens[0];
      var rest := if |tokens| == 1 then [] else [sep] + Join(tokens[1..], sep);
      var s := t + rest;
      assert s == Join(tokens, sep);
      assert s[0] == t[0] != sep;
      var n := TokenLength(s, sep);
      assert |rest| > 0 ==> s[|t|] == sep;
      assert n == |t| && s[..n] == t && s[n..] == rest;
      if |tokens| > 1 {
        SplitJoin(tokens[1..], sep);
        SplitLeadingSeparator(Join(tokens[1..], sep), sep);
        assert tokens == [t] + tokens[1..];
      }
    }
  }

  /** True when t occurs in s starting at position i. */
  predicate OccursAt(s: string, t: string, i: nat) {
    i + |t| <= |s| && s[i..i + |t|] == t
  }

  /** String.replace(target, replacement): every non-overlapping occurrence, scanning left to right. */
  function ReplaceAll(s: string, target: string, replacement: string): string
    requires |target| > 0
    decreases |s|
  {
    if |s| < |target| then s
    else if s[..|target|] == target then replacement + ReplaceAll(s[|target|..], target, replacement)
    else [s[0]] + ReplaceAll(s[1..], target, replacement)
  }

  /** Replacing a target that does not occur changes nothing. */
  lemma {:induction false} ReplaceAllAbsent(s: string, target: string, replacement: string)
    requires |target| > 0
    requires forall i :: 0 <= i <= |s| ==> !OccursAt(s, target, i)
    ensures ReplaceAll(s, target, replacement) == s
    decreases |s|
  {
    if |s| >= |target| {
      assert !OccursAt(s, target, 0);
      forall i | 0 <= i <= |s[1..]| ensures !OccursAt(s[1..], target, i) {
        if i + |target| <= |s[1..]| {
          assert !OccursAt(s, target, i + 1);
          assert s[1..][i..i + |target|] == s[i + 1..i + 1 + |target|];
        }
      }
      ReplaceAllAbsent(s[1..], target, replacement);
      assert s == [s[0]] + s[1..];
    }
  }

  /** A leading occurrence of the target is replaced and the rest is processed as if alone. */
  lemma ReplaceAllLeading(t: string, s: string, replacement: string)
    requires |t| > 0
    ensures ReplaceAll(t + s, t, replacement) == replacement + ReplaceAll(s, t, replacement)
  {
    assert (t + s)[..|t|] == t;
    assert (t + s)[|t|..] == s;
  }

  /** A one-character target: replacing distributes over concatenation. */
  lemma {:induction false} ReplaceCharAppend(a: string, b: string, c: char, replacement: string)
    ensures ReplaceAll(a + b, [c], replacement) == ReplaceAll(a, [c], replacement) + ReplaceAll(b, [c], replacement)
    decreases |a|
  {
    if a != [] {
      assert (a + b)[1..] == a[1..] + b;
      assert (a + b)[..1] == a[..1];
      ReplaceCharAppend(a[1..], b, c, replacement);
    } else {
      assert a + b == b;
    }
  }

  /** Removing every occurrence of a character leaves none of it. */
  lemma {:induction false} RemoveCharLeavesNone(s: string, c: char)
    ensures c !in ReplaceAll(s, [c], "")
    decreases |s|
  {
    if s != [] {
      RemoveCharLeavesNone(s[1..], c);
    }
  }

  /** A string without the character is left as it is by replacing that character. */
  lemma ReplaceAbsentChar(s: string, c: char, replacement: string)
    requires c !in s
    ensures ReplaceAll(s, [c], replacement) == s
  {
    forall i | 0 <= i <= |s| ensures !OccursAt(s, [c], i) {
      if i < |s| {
        assert s[i..i + 1] == [s[i]];
      }
    }
    ReplaceAllAbsent(s, [c], replacement);
  }

  /** Every character of the result of replacing a character comes from the replacement or is
      a different character of the original. */
  lemma {:induction false} ReplaceCharChars(s: string, c: char, replacement: string)
    ensures forall x :: x in ReplaceAll(s, [c], replacement) ==> x in replacement || (x in s && x != c)
    decreases |s|
  {
    if s != [] {
      ReplaceCharChars(s[1..], c, replacement);
      assert s[..1] == [s[0]];
      forall x | x in s[1..] ensures x in s {
        var i :| 0 <= i < |s[1..]| && s[1..][i] == x;
        assert s[i + 1] == x;
      }
    }
  }

  /** StringUtils.appendIfMissing(s, "/", "/"): add the separator unless s already ends with it. */
  function AppendIfMissing(s: string, sep: char): (r: string)
    ensures |r| > 0 && r[|r| - 1] == sep
    ensures s <= r && |r| <= |s| + 1
    ensures |s| > 0 && s[|s| - 1] == sep ==> r == s
  {
    if |s| > 0 && s[|s| - 1] == sep then s else s + [sep]
  }
}
