/** Go's `strings.Split` for a one-byte separator, with `strings.Join` and
    `strings.Count` as its partners. */
module Strings {
  import opened GoBase

  /** `strings.Count(s, string(c))`: the number of occurrences of byte `c`. */
  function Count(s: GoString, c: Byte): nat
  {
    if |s| == 0 then 0 else (if s[0] == c then 1 else 0) + Count(s[1..], c)
  }

  /** `strings.Join(parts, string(sep))`. */
  function Join(parts: seq<GoString>, sep: Byte): GoString
    requires |parts| >= 1
  {
    if |parts| == 1 then parts[0] else parts[0] + [sep] + Join(parts[1..], sep)
  }

  /** `strings.Split(s, string(sep))`: the pieces between consecutive occurrences
      of `sep`. An empty `s` gives one empty piece, and `n` separators give `n + 1`
      pieces. */
  function Split(s: GoString, sep: Byte): (parts: seq<GoString>)
    ensures |parts| == Count(s, sep) + 1
    ensures forall i :: 0 <= i < |parts| ==> sep !in parts[i]
    ensures Join(parts, sep) == s
  {
    if |s| == 0 then [[]]
    else
      var rest := Split(s[1..], sep);
      if s[0] == sep then
        assert s == [sep] + s[1..];
        [[]] + rest
      else
        var parts := [[s[0]] + rest[0]] + rest[1..];
        assert parts[1..] == rest[1..];
        assert forall i :: 1 <= i < |parts| ==> parts[i] == rest[i];
        assert s == [s[0]] + s[1..];
        parts
  }

  /** Split undoes Join whenever no piece contains the separator: the pieces
      Split returns are the only ones that Join back to `s`. */
  lemma {:induction false} SplitJoin(parts: seq<GoString>, sep: Byte)
    requires |parts| >= 1
    requires forall i :: 0 <= i < |parts| ==> sep !in parts[i]
    ensures Split(Join(parts, sep), sep) == parts
    decreases |parts|, |parts[0]|
  {
    var p := parts[0];
    if |p| == 0 {
      if |parts| == 1 {
      } else {
        var tail := parts[1..];
        SplitJoin(tail, sep);
        var j := Join(parts, sep);
        assert j == [sep] + Join(tail, sep);
        assert j[1..] == Join(tail, sep);
        assert [[]] + tail == parts;
      }
    } else {
      var shorter := [p[1..]] + parts[1..];
      assert forall i :: 1 <= i < |shorter| ==> shorter[i] == parts[i];
      assert sep !in shorter[0];
      SplitJoin(shorter, sep);
      var j := Join(parts, sep);
      assert shorter[1..] == parts[1..];
      assert j == [p[0]] + Join(shorter, sep) by {
        if |parts| == 1 {
          assert p == [p[0]] + p[1..];
        } else {
          assert p == [p[0]] + p[1..];
          assert j == p + [sep] + Join(parts[1..], sep);
          assert Join(shorter, sep) == p[1..] + [sep] + Join(parts[1..], sep);
        }
      }
      assert j[0] == p[0] && j[1..] == Join(shorter, sep);
      assert p[0] != sep;
      var rest := Split(j[1..], sep);
      assert rest == shorter;
      assert [[j[0]] + rest[0]] + rest[1..] == parts by {
        assert [p[0]] + p[1..] == p;
      }
    }
  }

  /** A string with exactly one separator splits into the text before it and
      the text after it. */
  lemma SplitTwo(a: GoString, b: GoString, sep: Byte)
    requires sep !in a && sep !in b
    ensures Split(a + [sep] + b, sep) == [a, b]
  {
    assert Join([a, b], sep) == a + [sep] + Join([b], sep);
    SplitJoin([a, b], sep);
  }
}
