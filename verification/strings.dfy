/** Small string and sequence vocabulary shared by both scripts: an option type,
    the file-name extension rule of Node's `path.extname`, ASCII lower-casing
    and sums of counts. */
module Strings {

  /** A value that may be missing (the scripts use `null` for this). */
  datatype Option<+T> = None | Some(value: T)

  /** Position of the last `c` in `s`, if there is one. */
  function LastIndexOf(s: string, c: char): (r: Option<nat>)
    ensures r.Some? ==> r.value < |s| && s[r.value] == c
    ensures r.Some? ==> forall j :: r.value < j < |s| ==> s[j] != c
    ensures r.None? ==> forall j :: 0 <= j < |s| ==> s[j] != c
  {
    if |s| == 0 then None
    else if s[|s| - 1] == c then Some(|s| - 1)
    else LastIndexOf(s[..|s| - 1], c)
  }

  /** The extension of a bare file name: everything from the last dot on,
      unless there is no dot or the only candidate dot opens the name
      (`.gitignore` has no extension). */
  function Extname(name: string): string
  {
    match LastIndexOf(name, '.')
    case None => ""
    case Some(i) => if i == 0 then "" else name[i..]
  }

  /** The extension, when there is one, is a proper suffix that starts at a
      dot and holds no other; there is none exactly when no dot follows the
      first character. */
  lemma ExtnameIsLastDotSuffix(name: string)
    ensures var e := Extname(name);
            && (e != [] ==> e[0] == '.' && |e| < |name| && e == name[|name| - |e|..])
            && (e != [] ==> forall j :: 1 <= j < |e| ==> e[j] != '.')
            && (e == [] <==> forall j :: 1 <= j < |name| ==> name[j] != '.')
  {
  }

  /** ASCII lower-casing of one character. */
  function LowerChar(c: char): char
  {
    if 'A' <= c <= 'Z' then (c as int + 32) as char else c
  }

  /** `String.prototype.toLowerCase`, restricted to the ASCII letters. */
  function ToLower(s: string): (r: string)
    ensures |r| == |s|
    ensures forall i :: 0 <= i < |s| ==> r[i] == LowerChar(s[i])
  {
    if |s| == 0 then [] else [LowerChar(s[0])] + ToLower(s[1..])
  }

  /** `s` begins with `c` (`s.startsWith(c)` for a one-character argument). */
  predicate StartsWithChar(s: string, c: char)
  {
    |s| > 0 && s[0] == c
  }

  /** `key` occurs in `s` starting at position `i`. */
  predicate OccursAt(s: string, key: string, i: int)
  {
    0 <= i && i + |key| <= |s| && s[i..i + |key|] == key
  }

  /** Positions in strictly increasing order. */
  predicate Increasing(idx: seq<nat>)
  {
    forall a, b :: 0 <= a < b < |idx| ==> idx[a] < idx[b]
  }

  /** Sum of a sequence of counts. */
  function Sum(xs: seq<nat>): nat
  {
    if |xs| == 0 then 0 else xs[0] + Sum(xs[1..])
  }

  lemma {:induction false} SumAppend(xs: seq<nat>, ys: seq<nat>)
    ensures Sum(xs + ys) == Sum(xs) + Sum(ys)
  {
    if |xs| == 0 {
      assert xs + ys == ys;
    } else {
      assert (xs + ys)[1..] == xs[1..] + ys;
      SumAppend(xs[1..], ys);
    }
  }
}
