/**
 * JavaScript's `Array.prototype.join` and `String.prototype.split` on strings,
 * as used to format coordinate lists in static/js/script.js.
 */
module Text {

  lemma ConcatAssoc(a: string, b: string, c: string)
    ensures a + (b + c) == (a + b) + c
  {
  }

  /** xs.join(sep): the items with sep between neighbours; "" for no items. */
  function Join(xs: seq<string>, sep: string): string
  {
    if |xs| == 0 then ""
    else if |xs| == 1 then xs[0]
    else xs[0] + sep + Join(xs[1..], sep)
  }

  /** s.split(c) for a one-character separator: the pieces between occurrences of c. */
  function Split(s: string, c: char): (parts: seq<string>)
    ensures |parts| >= 1
  {
    if |s| == 0 then [""]
    else if s[0] == c then [""] + Split(s[1..], c)
    else
      var rest := Split(s[1..], c);
      [[s[0]] + rest[0]] + rest[1..]
  }

  /** Splitting a text whose first piece holds no separator peels that piece off intact. */
  lemma {:induction false} SplitPrefix(a: string, t: string, c: char)
    requires c !in a
    ensures Split(a + t, c) == [a + Split(t, c)[0]] + Split(t, c)[1..]
  {
    if |a| > 0 {
      assert (a + t)[0] == a[0] != c;
      assert (a + t)[1..] == a[1..] + t;
      SplitPrefix(a[1..], t, c);
      var parts, rest := Split(t, c), Split(a[1..] + t, c);
      assert rest[0] == a[1..] + parts[0] && rest[1..] == parts[1..];
      assert [a[0]] + rest[0] == a + parts[0];
    } else {
      assert a + t == t;
      var parts := Split(t, c);
      assert parts == [parts[0]] + parts[1..];
      assert a + parts[0] == parts[0];
    }
  }

  /**
   * Round trip: when no item contains the separator, splitting the joined text
   * gives back the items. (An empty list joins to "", which splits to [""].)
   */
  lemma {:induction false} SplitJoin(xs: seq<string>, c: char)
    requires |xs| >= 1
    requires forall k :: 0 <= k < |xs| ==> c !in xs[k]
    ensures Split(Join(xs, [c]), c) == xs
  {
    if |xs| == 1 {
      SplitPrefix(xs[0], "", c);
      assert xs[0] + "" == xs[0];
    } else {
      var rest := Join(xs[1..], [c]);
      SplitJoin(xs[1..], c);
      assert Join(xs, [c]) == xs[0] + ([c] + rest);
      SplitPrefix(xs[0], [c] + rest, c);
      assert ([c] + rest)[1..] == rest;
      assert Split([c] + rest, c) == [""] + xs[1..];
      assert xs[0] + "" == xs[0];
      assert xs == [xs[0]] + xs[1..];
    }
  }

  /** A character that occurs in neither the items nor the separator does not occur in the join. */
  lemma {:induction false} JoinAvoids(xs: seq<string>, sep: string, c: char)
    requires c !in sep
    requires forall k :: 0 <= k < |xs| ==> c !in xs[k]
    ensures c !in Join(xs, sep)
  {
    if |xs| > 1 {
      JoinAvoids(xs[1..], sep, c);
    }
  }
}
