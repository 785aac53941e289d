/** String operations the file-system bookkeeping relies on: substring
    membership (Python's `p in s`), replacement of every occurrence
    (Python's `str.replace`), POSIX path joining (`os.path.join` with two
    components) and decimal rendering of a block count (`str(n)`). */
module Text {

  /** `p` occurs in `s` as a contiguous substring; the empty string occurs
      in every string, as in Python. */
  predicate Contains(s: string, p: string)
    ensures Contains(s, p) ==> |p| <= |s|
    ensures p == "" ==> Contains(s, p)
  {
    assert p == "" ==> OccursAt(s, p, 0);
    exists i :: 0 <= i <= |s| - |p| && OccursAt(s, p, i)
  }

  /** `p` occurs in `s` starting at index `i`. */
  predicate OccursAt(s: string, p: string, i: nat)
  {
    i + |p| <= |s| && s[i..i + |p|] == p
  }

  lemma ContainsAt(s: string, p: string, i: nat)
    requires OccursAt(s, p, i)
    ensures Contains(s, p)
  {
  }

  /** If `p` occurs in the tail of `s`, it occurs in `s`. */
  lemma ContainsTail(s: string, p: string)
    requires |s| > 0 && Contains(s[1..], p)
    ensures Contains(s, p)
  {
    var i :| 0 <= i <= |s[1..]| - |p| && OccursAt(s[1..], p, i);
    assert s[i + 1..i + 1 + |p|] == s[1..][i..i + |p|];
    ContainsAt(s, p, i + 1);
  }

  /** An occurrence that does not start at index 0 lies in the tail. */
  lemma ContainsNotAtZero(s: string, p: string)
    requires |s| > 0 && Contains(s, p) && !OccursAt(s, p, 0)
    ensures Contains(s[1..], p)
  {
    var i :| 0 <= i <= |s| - |p| && OccursAt(s, p, i);
    assert i > 0;
    assert s[1..][i - 1..i - 1 + |p|] == s[i..i + |p|];
    ContainsAt(s[1..], p, i - 1);
  }

  /** Left-to-right, non-overlapping replacement of every occurrence of
      `from` by `to`, which is what Python's `str.replace` does for a
      non-empty `from`. */
  function ReplaceAll(s: string, from: string, to: string): (r: string)
    requires from != ""
    ensures from == to ==> r == s
    decreases |s|
  {
    if |s| < |from| then s
    else if s[..|from|] == from then
      assert from + s[|from|..] == s;
      to + ReplaceAll(s[|from|..], from, to)
    else
      assert [s[0]] + s[1..] == s;
      [s[0]] + ReplaceAll(s[1..], from, to)
  }

  /** Replacing in a string that holds `from` leaves `to` in the result. */
  lemma {:induction false} ReplaceAllReplaces(s: string, from: string, to: string)
    requires from != "" && Contains(s, from)
    ensures Contains(ReplaceAll(s, from, to), to)
    decreases |s|
  {
    var r := ReplaceAll(s, from, to);
    if s[..|from|] == from {
      assert r[..|to|] == to;
      ContainsAt(r, to, 0);
    } else {
      ContainsNotAtZero(s, from);
      ReplaceAllReplaces(s[1..], from, to);
      assert r[1..] == ReplaceAll(s[1..], from, to);
      ContainsTail(r, to);
    }
  }

  /** A string without an occurrence of `from` comes back unchanged. */
  lemma {:induction false} ReplaceAllAbsent(s: string, from: string, to: string)
    requires from != "" && !Contains(s, from)
    ensures ReplaceAll(s, from, to) == s
    decreases |s|
  {
    if |s| >= |from| {
      if s[..|from|] == from {
        assert OccursAt(s, from, 0);
        ContainsAt(s, from, 0);
        assert false;
      }
      if Contains(s[1..], from) {
        ContainsTail(s, from);
        assert false;
      }
      ReplaceAllAbsent(s[1..], from, to);
    }
  }

  /** `os.path.join(directory, name)` on POSIX: an absolute `name` replaces
      the directory; otherwise a separator is inserted unless the directory
      is empty or already ends with one. */
  function Join(directory: string, name: string): (path: string)
    ensures |path| >= |name| && path[|path| - |name|..] == name
    ensures name != "" ==> path != ""
    ensures name != "" && name[0] != '/' && directory != "" ==>
              |path| > |directory| && path[..|directory|] == directory
  {
    if |name| > 0 && name[0] == '/' then name
    else if directory == [] || directory[|directory| - 1] == '/' then directory + name
    else directory + "/" + name
  }

  function DigitChar(d: nat): (c: char)
    requires d < 10
    ensures '0' <= c <= '9'
  {
    ('0' as int + d) as char
  }

  predicate IsDigits(s: string)
  {
    forall i :: 0 <= i < |s| ==> '0' <= s[i] <= '9'
  }

  /** `str(n)` for a non-negative integer: its decimal digits, most
      significant first. */
  function Decimal(n: nat): (r: string)
    ensures |r| >= 1 && IsDigits(r)
    ensures r[0] != '0' || n == 0
    decreases n
  {
    if n < 10 then [DigitChar(n)] else Decimal(n / 10) + [DigitChar(n % 10)]
  }

  /** The number a string of decimal digits denotes. */
  function DecimalValue(s: string): nat
    requires IsDigits(s)
  {
    if s == [] then 0
    else DecimalValue(s[..|s| - 1]) * 10 + (s[|s| - 1] as int - '0' as int)
  }

  /** Reading back what `Decimal` writes gives the number again. */
  lemma {:induction false} DecimalRoundTrip(n: nat)
    ensures DecimalValue(Decimal(n)) == n
    decreases n
  {
    var r := Decimal(n);
    if n >= 10 {
      DecimalRoundTrip(n / 10);
      assert r[..|r| - 1] == Decimal(n / 10);
    }
  }
}
