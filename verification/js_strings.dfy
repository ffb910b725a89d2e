/**
 * The few JavaScript string behaviours the routes rely on: truthiness of an
 * optional string, `String.prototype.split` on one separator character, and
 * `String.prototype.startsWith`.
 */
module JsStrings {
  import opened Wrappers

  /** JavaScript truthiness of a value that is either absent or a string:
      `undefined`, `null` and `""` are falsy, every other string is truthy. */
  predicate Truthy(v: Option<string>) {
    v.Some? && v.value != ""
  }

  /** `parts.join(sep)`. */
  function Join(parts: seq<string>, sep: char): string
    requires |parts| >= 1
  {
    if |parts| == 1 then parts[0] else parts[0] + [sep] + Join(parts[1..], sep)
  }

  /** `s.split(sep)` for a one-character separator: the pieces between the
      separators, in order, with empty pieces kept. Joining them back with
      the separator gives the original string. */
  function Split(s: string, sep: char): (parts: seq<string>)
    ensures |parts| >= 1
    ensures forall i :: 0 <= i < |parts| ==> sep !in parts[i]
    ensures Join(parts, sep) == s
    decreases |s|
  {
    if |s| == 0 then [""]
    else if s[0] == sep then [""] + Split(s[1..], sep)
    else
      var rest := Split(s[1..], sep);
      assert Join(rest, sep) == s[1..];
      var parts := [[s[0]] + rest[0]] + rest[1..];
      assert parts[1..] == rest[1..];
      assert s == [s[0]] + s[1..];
      parts
  }

  /** Splitting a joined sequence of separator-free pieces gives the pieces back. */
  lemma {:induction false} SplitJoin(parts: seq<string>, sep: char)
    requires |parts| >= 1
    requires forall i :: 0 <= i < |parts| ==> sep !in parts[i]
    ensures Split(Join(parts, sep), sep) == parts
    decreases |Join(parts, sep)|
  {
    var s := Join(parts, sep);
    if |parts| == 1 {
      SplitNoSeparator(parts[0], sep);
    } else {
      SplitJoin(parts[1..], sep);
      SplitPrefix(parts[0], Join(parts[1..], sep), sep);
    }
  }

  /** A string without the separator is one piece. */
  lemma {:induction false} SplitNoSeparator(s: string, sep: char)
    requires sep !in s
    ensures Split(s, sep) == [s]
  {
    SplitManyIffSeparator(s, sep);
  }

  /** Splitting `w + sep + rest`, where `w` holds no separator, yields `w`
      followed by the pieces of `rest`. */
  lemma {:induction false} SplitPrefix(w: string, rest: string, sep: char)
    requires sep !in w
    ensures Split(w + [sep] + rest, sep) == [w] + Split(rest, sep)
    decreases |w|
  {
    var s := w + [sep] + rest;
    if |w| == 0 {
      assert s[0] == sep && s[1..] == rest;
    } else {
      assert s[0] == w[0] && s[1..] == w[1..] + [sep] + rest;
      SplitPrefix(w[1..], rest, sep);
      assert [w[0]] + w[1..] == w;
    }
  }

  /** The string has more than one piece exactly when it contains the separator. */
  lemma SplitManyIffSeparator(s: string, sep: char)
    ensures |Split(s, sep)| > 1 <==> sep in s
  {
    var parts := Split(s, sep);
    if |parts| > 1 {
      assert s == parts[0] + [sep] + Join(parts[1..], sep);
      assert s[|parts[0]|] == sep;
    } else {
      assert s == parts[0];
    }
  }

  /** `s.startsWith(p)`, compared character by character. */
  function StartsWith(s: string, p: string): (r: bool)
    ensures r <==> p <= s
  {
    if |p| == 0 then true
    else if |s| == 0 then false
    else
      assert p <= s <==> s[0] == p[0] && p[1..] <= s[1..];
      s[0] == p[0] && StartsWith(s[1..], p[1..])
  }
}
