/**
 * Strings split into fields at a single delimiter character, the inverse join,
 * and the C view of a character buffer (everything before the first NUL).
 * This is the string algebra behind `strsep` as the shell uses it.
 */
module Fields {
  import opened Wrappers

  /** The first index at or after `from` where `s` holds `d`, if there is one. */
  function FindFrom(s: string, d: char, from: nat): (r: Option<nat>)
    requires from <= |s|
    ensures r.Some? ==> from <= r.value < |s| && s[r.value] == d && d !in s[from..r.value]
    ensures r.None? ==> d !in s[from..]
    decreases |s| - from
  {
    if from == |s| then None
    else if s[from] == d then Some(from)
    else
      var r := FindFrom(s, d, from + 1);
      assert r.Some? ==> s[from..r.value] == [s[from]] + s[from + 1..r.value];
      assert s[from..] == [s[from]] + s[from + 1..];
      r
  }

  /**
   * The fields of `s`: the pieces between consecutive occurrences of `d`.
   * Every occurrence separates two fields, so adjacent, leading or trailing
   * delimiters give empty fields, and the empty string has one empty field.
   */
  function Split(s: string, d: char): (fields: seq<string>)
    ensures |fields| >= 1
    ensures forall i :: 0 <= i < |fields| ==> d !in fields[i]
    decreases |s|
  {
    match FindFrom(s, d, 0)
    case None => [s]
    case Some(i) => [s[..i]] + Split(s[i + 1..], d)
  }

  /** The fields written one after another with one `d` between neighbours. */
  function Join(fields: seq<string>, d: char): string
    requires |fields| >= 1
  {
    if |fields| == 1 then fields[0] else fields[0] + [d] + Join(fields[1..], d)
  }

  /** A string without `d` is a single field. */
  lemma SplitSingle(a: string, d: char)
    requires d !in a
    ensures Split(a, d) == [a]
  {
  }

  /** A delimiter-free prefix followed by `d` is the first field, and the rest splits on its own. */
  lemma SplitCons(a: string, b: string, d: char)
    requires d !in a
    ensures Split(a + [d] + b, d) == [a] + Split(b, d)
  {
    var s := a + [d] + b;
    assert s[|a|] == d;
    match FindFrom(s, d, 0)
    case None =>
      assert false;
    case Some(i) =>
      assert i == |a|;
      assert s[..i] == a;
      assert s[i + 1..] == b;
  }

  /** Round trip: joining the fields of a string gives the string back. */
  lemma {:induction false} JoinSplit(s: string, d: char)
    ensures Join(Split(s, d), d) == s
    decreases |s|
  {
    match FindFrom(s, d, 0)
    case None =>
    case Some(i) =>
      var rest := Split(s[i + 1..], d);
      assert ([s[..i]] + rest)[1..] == rest;
      JoinSplit(s[i + 1..], d);
      assert s == s[..i] + [d] + s[i + 1..];
  }

  /** Round trip the other way: delimiter-free fields are recovered from their join. */
  lemma {:induction false} SplitJoin(fields: seq<string>, d: char)
    requires |fields| >= 1
    requires forall i :: 0 <= i < |fields| ==> d !in fields[i]
    ensures Split(Join(fields, d), d) == fields
  {
    if |fields| == 1 {
      SplitSingle(fields[0], d);
    } else {
      SplitJoin(fields[1..], d);
      SplitCons(fields[0], Join(fields[1..], d), d);
      assert [fields[0]] + fields[1..] == fields;
    }
  }

  /** There is one field more than there are delimiters. */
  lemma {:induction false} SplitCount(s: string, d: char)
    ensures |Split(s, d)| == multiset(s)[d] + 1
    decreases |s|
  {
    match FindFrom(s, d, 0)
    case None =>
      assert d !in multiset(s);
    case Some(i) =>
      SplitCount(s[i + 1..], d);
      assert s == s[..i] + [s[i]] + s[i + 1..];
      assert d !in multiset(s[..i]);
      assert multiset(s) == multiset(s[..i]) + multiset([s[i]]) + multiset(s[i + 1..]);
  }

  /** Joining two non-empty lists of fields puts one delimiter between the two joins. */
  lemma {:induction false} JoinAppend(a: seq<string>, b: seq<string>, d: char)
    requires |a| >= 1 && |b| >= 1
    ensures Join(a + b, d) == Join(a, d) + [d] + Join(b, d)
  {
    if |a| > 1 {
      JoinAppend(a[1..], b, d);
      assert (a + b)[1..] == a[1..] + b;
    }
  }

  /** The C string held in a buffer: the characters before the first NUL, or all of them. */
  function CString(buf: string): (s: string)
    ensures |s| <= |buf| && s == buf[..|s|]
    ensures '\0' !in s
    ensures |s| < |buf| ==> buf[|s|] == '\0'
  {
    match FindFrom(buf, '\0', 0)
    case None => buf
    case Some(i) => buf[..i]
  }
}
