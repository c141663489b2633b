/**
  Bar-separated strings. The library's sort keys are fields glued together
  with '|'; this module gives the joining and the splitting, and the two
  round trips between them.
 */
module Separated {

  const Bar: char := '|'

  /** The fields separated by single bars, with no leading or trailing bar. */
  function Join(fields: seq<string>): string
    decreases |fields|
  {
    if |fields| == 0 then ""
    else if |fields| == 1 then fields[0]
    else fields[0] + [Bar] + Join(fields[1..])
  }

  /** True iff no field contains the separator. */
  predicate BarFree(fields: seq<string>)
  {
    forall i :: 0 <= i < |fields| ==> Bar !in fields[i]
  }

  /** Cuts a string at every bar; joining the pieces gives the string back. */
  function Split(s: string): (fields: seq<string>)
    ensures |fields| >= 1
    ensures BarFree(fields)
    ensures Join(fields) == s
    decreases |s|
  {
    if |s| == 0 then [""]
    else if s[0] == Bar then
      var rest := Split(s[1..]);
      assert ([""] + rest)[1..] == rest;
      assert s == [Bar] + s[1..];
      [""] + rest
    else
      var rest := Split(s[1..]);
      var fields := [[s[0]] + rest[0]] + rest[1..];
      assert fields[1..] == rest[1..];
      assert s == [s[0]] + s[1..];
      fields
  }

  /** A field in front of at least one more joins with a bar before the rest. */
  lemma JoinCons(f: string, rest: seq<string>)
    requires |rest| >= 1
    ensures Join([f] + rest) == f + [Bar] + Join(rest)
  {
  }

  /** A field without bars splits into itself. */
  lemma SplitBarFreeField(s: string)
    requires Bar !in s
    ensures Split(s) == [s]
    decreases |s|
  {
  }

  /** Splitting cuts at the first bar when the text before it is one field. */
  lemma {:induction false} SplitAfterField(f: string, t: string)
    requires Bar !in f
    ensures Split(f + [Bar] + t) == [f] + Split(t)
    decreases |f|
  {
    var s := f + [Bar] + t;
    if |f| == 0 {
      assert s[1..] == t;
    } else {
      assert s[1..] == f[1..] + [Bar] + t;
      SplitAfterField(f[1..], t);
      assert [f[0]] + f[1..] == f;
    }
  }

  /** Bar-free fields survive a join followed by a split. */
  lemma {:induction false} SplitJoin(fields: seq<string>)
    requires |fields| >= 1
    requires BarFree(fields)
    ensures Split(Join(fields)) == fields
    decreases |fields|
  {
    if |fields| == 1 {
      SplitBarFreeField(fields[0]);
    } else {
      assert Bar !in fields[0];
      SplitAfterField(fields[0], Join(fields[1..]));
      SplitJoin(fields[1..]);
      assert [fields[0]] + fields[1..] == fields;
    }
  }

}
