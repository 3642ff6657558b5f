/** Case-insensitive comparison of names, as the role lookups use it. */
module Text {
  import opened Sequences

  /** Lower-cases one character; only the ASCII letters A-Z are mapped. */
  function LowerChar(c: char): (d: char)
    ensures 'A' <= c <= 'Z' ==> d as int == c as int + 32
    ensures !('A' <= c <= 'Z') ==> d == c
    ensures !('A' <= d <= 'Z')
  {
    if 'A' <= c <= 'Z' then (c as int + 32) as char else c
  }

  /** `String.prototype.toLowerCase`, restricted to ASCII letters. */
  function Lower(s: string): (t: string)
    ensures |t| == |s|
    ensures forall i :: 0 <= i < |s| ==> t[i] == LowerChar(s[i])
  {
    seq(|s|, i requires 0 <= i < |s| => LowerChar(s[i]))
  }

  /** True when the two names are equal ignoring (ASCII) case. */
  predicate EqualsIgnoreCase(a: string, b: string)
  {
    Lower(a) == Lower(b)
  }

  /** `util.findIndexIgnoreCase`: the first index whose name equals `query`
      ignoring case, or -1 when no name does. */
  function FindIndexIgnoreCase(names: seq<string>, query: string): (k: int)
    ensures -1 <= k < |names|
    ensures 0 <= k ==> EqualsIgnoreCase(names[k], query)
    ensures 0 <= k ==> forall j :: 0 <= j < k ==> !EqualsIgnoreCase(names[j], query)
    ensures k == -1 <==> forall j :: 0 <= j < |names| ==> !EqualsIgnoreCase(names[j], query)
  {
    FindIndex(names, (n: string) => EqualsIgnoreCase(n, query))
  }
}
