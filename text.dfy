/**
 * The JavaScript string primitives the core relies on, as pure functions
 * over `seq<char>`: the `\s` character class and `trim`, ASCII lower-casing,
 * `includes` / `startsWith`, `split`, `join`, whitespace collapsing and the
 * decimal rendering of numbers in template strings.
 */
module Text {

  datatype Option<T> = None | Some(value: T)

  /** JavaScript's `\s` class, which is also the set `String.prototype.trim` strips:
      the ECMAScript WhiteSpace and LineTerminator code points. */
  predicate IsSpace(c: char) {
    c == ' ' || c == '\t' || c == '\n' || c == '\r' || c == '\U{000B}' || c == '\U{000C}'
    || c == '\U{00A0}' || c == '\U{1680}' || ('\U{2000}' <= c <= '\U{200A}')
    || c == '\U{2028}' || c == '\U{2029}' || c == '\U{202F}' || c == '\U{205F}'
    || c == '\U{3000}' || c == '\U{FEFF}'
  }

  /** JavaScript's `\w` class (no `u` flag): ASCII letters, digits and underscore. */
  predicate IsWordChar(c: char) {
    ('a' <= c <= 'z') || ('A' <= c <= 'Z') || ('0' <= c <= '9') || c == '_'
  }

  predicate IsDigit(c: char) {
    '0' <= c <= '9'
  }

  predicate IsUpper(c: char) {
    'A' <= c <= 'Z'
  }

  function LowerChar(c: char): (r: char)
    ensures !IsUpper(r)
    ensures IsSpace(r) <==> IsSpace(c)
    ensures IsWordChar(r) <==> IsWordChar(c)
  {
    if IsUpper(c) then (c as int + 32) as char else c
  }

  /** `toLowerCase`, restricted to the ASCII letters. */
  function Lower(s: string): string {
    seq(|s|, i requires 0 <= i < |s| => LowerChar(s[i]))
  }

  predicate AllSpaces(s: string) {
    forall i :: 0 <= i < |s| ==> IsSpace(s[i])
  }

  /** Every character of `s[a..b]` is whitespace. */
  predicate SpacesBetween(s: string, a: nat, b: nat)
    requires a <= b <= |s|
  {
    forall i :: a <= i < b ==> IsSpace(s[i])
  }

  /** Length of the whitespace run of `s` that starts at index `k`. */
  function SpaceRunFrom(s: string, k: nat): (n: nat)
    requires k <= |s|
    ensures k + n <= |s|
    ensures SpacesBetween(s, k, k + n)
    ensures k + n < |s| ==> !IsSpace(s[k + n])
    decreases |s| - k
  {
    if k < |s| && IsSpace(s[k]) then 1 + SpaceRunFrom(s, k + 1) else 0
  }

  /** Length of the whitespace run of `s` that ends just before index `k`. */
  function SpaceRunBefore(s: string, k: nat): (n: nat)
    requires k <= |s|
    ensures n <= k
    ensures SpacesBetween(s, k - n, k)
    ensures n < k ==> !IsSpace(s[k - 1 - n])
  {
    if k > 0 && IsSpace(s[k - 1]) then 1 + SpaceRunBefore(s, k - 1) else 0
  }

  /** Number of whitespace characters at the start of `s`. */
  function LeadLen(s: string): (n: nat)
    ensures n <= |s|
    ensures SpacesBetween(s, 0, n)
    ensures n < |s| ==> !IsSpace(s[n])
  {
    SpaceRunFrom(s, 0)
  }

  /** Number of whitespace characters at the end of `s`. */
  function TailLen(s: string): (n: nat)
    ensures n <= |s|
    ensures SpacesBetween(s, |s| - n, |s|)
    ensures n < |s| ==> !IsSpace(s[|s| - 1 - n])
  {
    SpaceRunBefore(s, |s|)
  }

  /** `String.prototype.trim`: the slice of `s` between its leading and trailing whitespace. */
  function Trim(s: string): (r: string)
    ensures |r| <= |s|
    ensures r != [] ==> !IsSpace(r[0]) && !IsSpace(r[|r| - 1])
  {
    var a := LeadLen(s);
    if a == |s| then [] else s[a..|s| - TailLen(s)]
  }

  lemma {:induction false} LeadLenOfNonSpace(s: string)
    requires |s| > 0 && !IsSpace(s[0])
    ensures LeadLen(s) == 0
  {
  }

  /** A string whose ends are not whitespace is its own trim. */
  lemma TrimOfTrimmed(s: string)
    requires s == [] || (!IsSpace(s[0]) && !IsSpace(s[|s| - 1]))
    ensures Trim(s) == s
  {
    if s != [] {
      assert LeadLen(s) == 0;
      assert TailLen(s) == 0;
    }
  }

  lemma TrimIdempotent(s: string)
    ensures Trim(Trim(s)) == Trim(s)
  {
    TrimOfTrimmed(Trim(s));
  }

  /** Lower-casing maps whitespace to whitespace and nothing else to it, so it commutes with trim. */
  lemma {:induction false} LowerTrimCommute(s: string)
    ensures Trim(Lower(s)) == Lower(Trim(s))
  {
    var l := Lower(s);
    SpaceRunFromLower(s, 0);
    SpaceRunBeforeLower(s, |s|);
    var a, b := LeadLen(s), |s| - TailLen(s);
    assert |l| == |s| && LeadLen(l) == a && TailLen(l) == TailLen(s);
    if a == |s| {
      assert Trim(l) == [];
      assert Trim(s) == [];
    } else {
      assert Trim(l) == l[a..b];
      assert Trim(s) == s[a..b];
      LowerSlice(s, a, b);
    }
  }

  lemma LowerSlice(s: string, i: nat, j: nat)
    requires i <= j <= |s|
    ensures Lower(s)[i..j] == Lower(s[i..j])
  {
    var a := Lower(s)[i..j];
    var b := Lower(s[i..j]);
    forall k | 0 <= k < j - i
      ensures a[k] == b[k]
    {
      assert s[i..j][k] == s[i + k];
    }
  }

  lemma {:induction false} SpaceRunFromLower(s: string, k: nat)
    requires k <= |s|
    ensures SpaceRunFrom(Lower(s), k) == SpaceRunFrom(s, k)
    decreases |s| - k
  {
    if k < |s| && IsSpace(s[k]) {
      SpaceRunFromLower(s, k + 1);
    }
  }

  lemma {:induction false} SpaceRunBeforeLower(s: string, k: nat)
    requires k <= |s|
    ensures SpaceRunBefore(Lower(s), k) == SpaceRunBefore(s, k)
  {
    if k > 0 && IsSpace(s[k - 1]) {
      SpaceRunBeforeLower(s, k - 1);
    }
  }

  /** Characters the pattern `[\w\s'-]` keeps. */
  predicate IsKeptChar(c: char) {
    IsWordChar(c) || IsSpace(c) || c == '\'' || c == '-'
  }

  /** `replace(/[^\w\s'-]/g, " ")`: every other character becomes a space. */
  function Scrub(s: string): (r: string)
    ensures |r| == |s|
    ensures forall i :: 0 <= i < |s| ==> r[i] == (if IsKeptChar(s[i]) then s[i] else ' ')
  {
    if s == [] then [] else [if IsKeptChar(s[0]) then s[0] else ' '] + Scrub(s[1..])
  }

  /** The trimmed string is the slice between the leading and the trailing whitespace. */
  lemma TrimSlice(s: string)
    ensures LeadLen(s) + |Trim(s)| <= |s|
    ensures Trim(s) == s[LeadLen(s)..LeadLen(s) + |Trim(s)|]
  {
  }

  lemma TrimEmpty(s: string)
    ensures Trim(s) == [] <==> AllSpaces(s)
  {
    if LeadLen(s) < |s| {
      assert !IsSpace(s[LeadLen(s)]);
    }
  }

  predicate StartsWith(s: string, p: string) {
    |p| <= |s| && s[..|p|] == p
  }

  predicate OccursAt(s: string, p: string, i: nat) {
    i + |p| <= |s| && s[i..i + |p|] == p
  }

  /** `String.prototype.includes`. */
  predicate Contains(s: string, p: string) {
    exists i :: 0 <= i <= |s| && OccursAt(s, p, i)
  }

  lemma ContainsOfStartsWith(s: string, p: string)
    requires StartsWith(s, p)
    ensures Contains(s, p)
  {
    assert OccursAt(s, p, 0);
  }

  lemma ContainsMiddle(a: string, b: string, c: string)
    ensures StartsWith(a + b + c, a)
    ensures Contains(a + b + c, b)
  {
    assert (a + b + c)[..|a|] == a;
    assert (a + b + c)[|a|..|a| + |b|] == b;
    assert OccursAt(a + b + c, b, |a|);
  }

  /** Index of the first occurrence of `c` in `s`, or `|s|` when there is none. */
  function IndexOf(s: string, c: char): (n: nat)
    ensures n <= |s|
    ensures forall i :: 0 <= i < n ==> s[i] != c
    ensures n < |s| ==> s[n] == c
  {
    if s == [] then 0 else if s[0] == c then 0 else 1 + IndexOf(s[1..], c)
  }

  /** `s.split(c)` for a one-character separator: the pieces between occurrences of `c`. */
  function SplitOn(s: string, c: char): (r: seq<string>)
    ensures |r| > 0
    ensures forall k :: 0 <= k < |r| ==> c !in r[k]
    decreases |s|
  {
    var n := IndexOf(s, c);
    if n == |s| then [s] else [s[..n]] + SplitOn(s[n + 1..], c)
  }

  /** Index of the first whitespace character of `s`, or `|s|` when there is none. */
  function SpaceIndex(s: string): (n: nat)
    ensures n <= |s|
    ensures forall i :: 0 <= i < n ==> !IsSpace(s[i])
    ensures n < |s| ==> IsSpace(s[n])
  {
    if s == [] then 0 else if IsSpace(s[0]) then 0 else 1 + SpaceIndex(s[1..])
  }

  /** The pieces of `s` between its whitespace characters, empty pieces included.
      `split(/\s+/)` gives the same non-empty pieces in the same order. */
  function SplitAtSpaces(s: string): (r: seq<string>)
    ensures |r| > 0
    ensures forall k, i :: 0 <= k < |r| && 0 <= i < |r[k]| ==> !IsSpace(r[k][i])
    ensures forall k, i :: 0 <= k < |r| && 0 <= i < |r[k]| ==> r[k][i] in s
    decreases |s|
  {
    var n := SpaceIndex(s);
    if n == |s| then [s] else [s[..n]] + SplitAtSpaces(s[n + 1..])
  }

  /** The pieces put back together with the separator give the string again, and the
      first piece is the text before the first separator. */
  lemma {:induction false} SplitOnJoin(s: string, c: char)
    ensures Join(SplitOn(s, c), [c]) == s
    ensures SplitOn(s, c)[0] == s[..IndexOf(s, c)]
    decreases |s|
  {
    var n := IndexOf(s, c);
    if n < |s| {
      var rest := SplitOn(s[n + 1..], c);
      SplitOnJoin(s[n + 1..], c);
      assert SplitOn(s, c) == [s[..n]] + rest;
      assert ([s[..n]] + rest)[1..] == rest;
      assert s == s[..n] + [c] + s[n + 1..];
    } else {
      assert s[..n] == s;
    }
  }

  /** `s` with every whitespace character replaced by a space. */
  function BlankSpaces(s: string): string {
    seq(|s|, i requires 0 <= i < |s| => if IsSpace(s[i]) then ' ' else s[i])
  }

  /** Blanking splits at a whitespace character that ends a run without whitespace. */
  lemma BlankSpacesAt(s: string, n: nat)
    requires n < |s| && IsSpace(s[n])
    requires forall i :: 0 <= i < n ==> !IsSpace(s[i])
    ensures BlankSpaces(s) == s[..n] + " " + BlankSpaces(s[n + 1..])
  {
    var b := BlankSpaces(s);
    var c := s[..n] + " " + BlankSpaces(s[n + 1..]);
    forall i | 0 <= i < |b| ensures b[i] == c[i] {
      if i > n {
        assert s[n + 1..][i - n - 1] == s[i];
      }
    }
  }

  /** The pieces are the input's words in order: joined by single spaces they give
      the input with each whitespace character written as a space. */
  lemma {:induction false} SplitAtSpacesJoin(s: string)
    ensures Join(SplitAtSpaces(s), " ") == BlankSpaces(s)
    decreases |s|
  {
    var n := SpaceIndex(s);
    if n < |s| {
      var rest := SplitAtSpaces(s[n + 1..]);
      SplitAtSpacesJoin(s[n + 1..]);
      assert SplitAtSpaces(s) == [s[..n]] + rest;
      assert ([s[..n]] + rest)[1..] == rest;
      BlankSpacesAt(s, n);
    } else {
      assert BlankSpaces(s) == s;
    }
  }

  /** The characters of `s` that are not whitespace, in order. */
  function NonSpaces(s: string): string
    decreases |s|
  {
    if s == [] then [] else (if IsSpace(s[0]) then [] else [s[0]]) + NonSpaces(s[1..])
  }

  /** A leading whitespace run contributes nothing to `NonSpaces`. */
  lemma {:induction false} NonSpacesSkip(s: string, n: nat)
    requires n <= |s| && SpacesBetween(s, 0, n)
    ensures NonSpaces(s) == NonSpaces(s[n..])
  {
    if n > 0 {
      assert SpacesBetween(s[1..], 0, n - 1) by {
        forall i | 0 <= i < n - 1 ensures IsSpace(s[1..][i]) {
          assert s[1..][i] == s[i + 1];
        }
      }
      NonSpacesSkip(s[1..], n - 1);
      assert s[1..][n - 1..] == s[n..];
    }
  }

  /** Collapsing whitespace keeps every other character, in order. */
  lemma {:induction false} CollapseKeepsNonSpaces(s: string)
    ensures NonSpaces(CollapseSpaces(s)) == NonSpaces(s)
    decreases |s|
  {
    if s != [] {
      if IsSpace(s[0]) {
        var n := LeadLen(s);
        var rest := CollapseSpaces(s[n..]);
        CollapseKeepsNonSpaces(s[n..]);
        NonSpacesSkip(s, n);
        assert (" " + rest)[1..] == rest;
      } else {
        var rest := CollapseSpaces(s[1..]);
        CollapseKeepsNonSpaces(s[1..]);
        assert ([s[0]] + rest)[1..] == rest;
      }
    }
  }

  /** `table[key]` for an object literal used as a table: the value of the first entry
      with that key, if any. */
  function Lookup(table: seq<(string, string)>, key: string): Option<string> {
    if table == [] then None
    else if table[0].0 == key then Some(table[0].1)
    else Lookup(table[1..], key)
  }

  /** A key found has an entry with the value found; a key not found has no entry. */
  lemma {:induction false} LookupSpec(table: seq<(string, string)>, key: string)
    ensures Lookup(table, key).Some? ==> exists i :: 0 <= i < |table| && table[i] == (key, Lookup(table, key).value)
    ensures Lookup(table, key).None? <==> forall i :: 0 <= i < |table| ==> table[i].0 != key
  {
    if table != [] && table[0].0 != key {
      LookupSpec(table[1..], key);
      if Lookup(table, key).Some? {
        var i :| 0 <= i < |table[1..]| && table[1..][i] == (key, Lookup(table, key).value);
        assert table[i + 1] == table[1..][i];
      }
      if forall i :: 0 <= i < |table[1..]| ==> table[1..][i].0 != key {
        forall i | 0 <= i < |table| ensures table[i].0 != key {
          if i > 0 {
            assert table[i] == table[1..][i - 1];
          }
        }
      }
    }
  }

  /** A key looked up finds the value of its first entry. */
  lemma {:induction false} LookupFinds(table: seq<(string, string)>, k: nat)
    requires k < |table|
    requires forall i :: 0 <= i < k ==> table[i].0 != table[k].0
    ensures Lookup(table, table[k].0) == Some(table[k].1)
  {
    if k > 0 {
      LookupFinds(table[1..], k - 1);
    }
  }

  /** Entries appended after a key's entry do not change what it finds. */
  lemma {:induction false} LookupAppend(a: seq<(string, string)>, b: seq<(string, string)>, key: string)
    requires Lookup(a, key).Some?
    ensures Lookup(a + b, key) == Lookup(a, key)
  {
    if a[0].0 != key {
      assert (a + b)[1..] == a[1..] + b;
      LookupAppend(a[1..], b, key);
    }
  }

  /** Entries placed before a table that lacks the key do not change what it finds. */
  lemma {:induction false} LookupSkip(a: seq<(string, string)>, b: seq<(string, string)>, key: string)
    requires Lookup(a, key).None?
    ensures Lookup(a + b, key) == Lookup(b, key)
  {
    if a != [] {
      assert (a + b)[1..] == a[1..] + b;
      LookupSkip(a[1..], b, key);
    } else {
      assert a + b == b;
    }
  }

  /** No string occurs twice. */
  predicate NoDup(s: seq<string>) {
    forall i, j :: 0 <= i < j < |s| ==> s[i] != s[j]
  }

  /** `parts.join(sep)`. */
  function Join(parts: seq<string>, sep: string): string {
    if parts == [] then ""
    else if |parts| == 1 then parts[0]
    else parts[0] + sep + Join(parts[1..], sep)
  }

  /** `replace(/\s+/g, " ")`: every maximal run of whitespace becomes one space. */
  function CollapseSpaces(s: string): string
    decreases |s|
  {
    if s == [] then []
    else if IsSpace(s[0]) then " " + CollapseSpaces(s[LeadLen(s)..])
    else [s[0]] + CollapseSpaces(s[1..])
  }

  /** The only whitespace left is single spaces, each standing for a run of the input,
      and every other character comes from the input. */
  lemma {:induction false} CollapseSpacesSpec(s: string)
    ensures var r := CollapseSpaces(s);
      && (forall i :: 0 <= i < |r| && IsSpace(r[i]) ==> r[i] == ' ')
      && (forall i :: 0 <= i < |r| ==> r[i] == ' ' || r[i] in s)
      && (forall i :: 0 <= i < |r| - 1 ==> !(r[i] == ' ' && r[i + 1] == ' '))
      && (|r| == 0 <==> |s| == 0)
      && (|r| > 0 ==> (r[0] == ' ' <==> IsSpace(s[0])))
    decreases |s|
  {
    if s != [] {
      var r := CollapseSpaces(s);
      if IsSpace(s[0]) {
        var n := LeadLen(s);
        var rest := CollapseSpaces(s[n..]);
        CollapseSpacesSpec(s[n..]);
        assert r == " " + rest;
        assert rest != [] ==> rest[0] != ' ';
        forall i | 0 <= i < |r| && r[i] != ' ' ensures r[i] in s {
          assert r[i] == rest[i - 1];
          assert rest[i - 1] in s[n..];
        }
        forall i | 0 <= i < |r| - 1 ensures !(r[i] == ' ' && r[i + 1] == ' ') {
          if i > 0 {
            assert r[i] == rest[i - 1] && r[i + 1] == rest[i];
          }
        }
      } else {
        var rest := CollapseSpaces(s[1..]);
        CollapseSpacesSpec(s[1..]);
        assert r == [s[0]] + rest;
        forall i | 0 <= i < |r| && r[i] != ' ' ensures r[i] in s {
          if i > 0 {
            assert r[i] == rest[i - 1];
            assert rest[i - 1] in s[1..];
          }
        }
        forall i | 0 <= i < |r| - 1 ensures !(r[i] == ' ' && r[i + 1] == ' ') {
          if i > 0 {
            assert r[i] == rest[i - 1] && r[i + 1] == rest[i];
          }
        }
      }
    }
  }

  function DigitChar(d: nat): (c: char)
    requires d < 10
    ensures IsDigit(c)
  {
    ('0' as int + d) as char
  }

  /** The decimal rendering of a natural number, as a template string prints it. */
  function NatToString(n: nat): (r: string)
    ensures |r| > 0
    ensures forall i :: 0 <= i < |r| ==> IsDigit(r[i])
  {
    if n < 10 then [DigitChar(n)] else NatToString(n / 10) + [DigitChar(n % 10)]
  }

  function IntToString(n: int): string {
    if n < 0 then "-" + NatToString(-n) else NatToString(n)
  }

  /** The value of a non-empty string of decimal digits. */
  function DigitsValue(s: string): nat
    requires forall i :: 0 <= i < |s| ==> IsDigit(s[i])
  {
    if s == [] then 0
    else
      var d := s[|s| - 1] as int - '0' as int;
      assert IsDigit(s[|s| - 1]);
      10 * DigitsValue(s[..|s| - 1]) + d
  }

  /** Reading back a rendered natural number gives the number. */
  lemma {:induction false} NatToStringRoundTrip(n: nat)
    ensures DigitsValue(NatToString(n)) == n
  {
    if n >= 10 {
      NatToStringRoundTrip(n / 10);
      var r := NatToString(n);
      assert r[..|r| - 1] == NatToString(n / 10);
    }
  }
}
