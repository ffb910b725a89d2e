/**
 * `generateSlug` from the VIP routes: the post date (as `YYYY-MM-DD`), a
 * hyphen, and the name lower-cased with every run of characters outside
 * `[a-z0-9]` turned into one hyphen and one hyphen trimmed from each end.
 * Lower-casing is ASCII only.
 */
module Slug {
  import opened Wrappers
  import opened JsStrings

  predicate IsLowerAlnum(c: char) {
    'a' <= c <= 'z' || '0' <= c <= '9'
  }

  predicate IsSlugChar(c: char) {
    IsLowerAlnum(c) || c == '-'
  }

  predicate OnlySlugChars(s: string) {
    forall i :: 0 <= i < |s| ==> IsSlugChar(s[i])
  }

  predicate NoDoubleHyphen(s: string) {
    forall i :: 0 < i < |s| ==> !(s[i - 1] == '-' && s[i] == '-')
  }

  /** A well-formed name part of a slug: lower-case letters, digits and
      single hyphens, with no hyphen at either end. */
  predicate IsSlugName(s: string) {
    && OnlySlugChars(s)
    && NoDoubleHyphen(s)
    && (|s| > 0 ==> s[0] != '-' && s[|s| - 1] != '-')
  }

  /** `toLowerCase` on one character, for the ASCII range. */
  function LowerChar(c: char): (d: char)
    ensures IsLowerAlnum(d) <==> IsLowerAlnum(c) || 'A' <= c <= 'Z'
    ensures 'A' <= c <= 'Z' ==> d as int - 'a' as int == c as int - 'A' as int
    ensures !('A' <= c <= 'Z') ==> d == c
  {
    if 'A' <= c <= 'Z' then (c as int + 32) as char else c
  }

  function Lower(s: string): string {
    seq(|s|, i requires 0 <= i < |s| => LowerChar(s[i]))
  }

  /** The lower-case letters and digits of `s`, in order. */
  function Alnums(s: string): string {
    if |s| == 0 then [] else (if IsLowerAlnum(s[0]) then [s[0]] else []) + Alnums(s[1..])
  }

  lemma {:induction false} AlnumsAppend(s: string, c: char)
    ensures Alnums(s + [c]) == Alnums(s) + (if IsLowerAlnum(c) then [c] else [])
  {
    if |s| > 0 {
      assert (s + [c])[1..] == s[1..] + [c];
      AlnumsAppend(s[1..], c);
    }
  }

  /** Skips the run of characters outside `[a-z0-9]` at the front. */
  function DropRun(s: string): (r: string)
    ensures |r| <= |s| && r == s[|s| - |r|..]
    ensures |r| > 0 ==> IsLowerAlnum(r[0])
    ensures Alnums(r) == Alnums(s)
  {
    if |s| == 0 || IsLowerAlnum(s[0]) then s else DropRun(s[1..])
  }

  /** Prefixing a character keeps the hyphens single when the character
      and the first one of `s` are not both hyphens. */
  lemma ConsNoDoubleHyphen(c: char, s: string)
    requires NoDoubleHyphen(s)
    requires c != '-' || |s| == 0 || s[0] != '-'
    ensures NoDoubleHyphen([c] + s)
  {
    var r := [c] + s;
    forall i | 0 < i < |r| ensures !(r[i - 1] == '-' && r[i] == '-') {
      if i > 1 {
        assert r[i - 1] == s[i - 2] && r[i] == s[i - 1];
      }
    }
  }

  /** `.replace(/[^a-z0-9]+/g, '-')`: every maximal run of characters
      outside `[a-z0-9]` becomes one hyphen; letters and digits stay, in
      order. */
  function Collapse(s: string): (r: string)
    ensures OnlySlugChars(r)
    ensures NoDoubleHyphen(r)
    ensures |r| == 0 <==> |s| == 0
    ensures |s| > 0 ==> (r[0] == '-' <==> !IsLowerAlnum(s[0]))
    ensures Alnums(r) == Alnums(s)
    decreases |s|
  {
    if |s| == 0 then []
    else
      var c := if IsLowerAlnum(s[0]) then s[0] else '-';
      var rest := if IsLowerAlnum(s[0]) then Collapse(s[1..]) else Collapse(DropRun(s[1..]));
      ConsNoDoubleHyphen(c, rest);
      assert ([c] + rest)[1..] == rest;
      [c] + rest
  }

  /** `.replace(/(^-|-$)/g, '')`: one hyphen goes from the start and one
      from the end. */
  function TrimHyphens(s: string): (r: string)
    ensures Alnums(r) == Alnums(s)
    ensures OnlySlugChars(s) && NoDoubleHyphen(s) ==> IsSlugName(r)
    ensures IsSlugName(s) ==> r == s
    ensures s == (if |s| > 0 && s[0] == '-' then "-" else "") + r
                 + (if |s| > 1 && s[|s| - 1] == '-' then "-" else "")
  {
    var a := DropLeadingHyphen(s);
    var r := DropTrailingHyphen(a);
    var lo := |s| - |a|;
    assert r == s[lo..lo + |r|];
    SliceKeepsSlugText(s, lo, lo + |r|);
    r
  }

  function DropLeadingHyphen(s: string): (a: string)
    ensures Alnums(a) == Alnums(s)
    ensures |s| > 0 && s[0] == '-' ==> a == s[1..]
    ensures !(|s| > 0 && s[0] == '-') ==> a == s
  {
    if |s| > 0 && s[0] == '-' then s[1..] else s
  }

  function DropTrailingHyphen(a: string): (b: string)
    ensures Alnums(b) == Alnums(a)
    ensures |a| > 0 && a[|a| - 1] == '-' ==> b == a[..|a| - 1]
    ensures !(|a| > 0 && a[|a| - 1] == '-') ==> b == a
  {
    if |a| > 0 && a[|a| - 1] == '-' then
      AlnumsAppend(a[..|a| - 1], '-');
      assert a[..|a| - 1] + ['-'] == a;
      a[..|a| - 1]
    else a
  }

  /** A slice of slug text is slug text. */
  lemma SliceKeepsSlugText(s: string, lo: nat, hi: nat)
    requires lo <= hi <= |s|
    ensures OnlySlugChars(s) ==> OnlySlugChars(s[lo..hi])
    ensures NoDoubleHyphen(s) ==> NoDoubleHyphen(s[lo..hi])
  {
    var t := s[lo..hi];
    assert forall i :: 0 <= i < |t| ==> t[i] == s[lo + i];
    if NoDoubleHyphen(s) {
      forall i | 0 < i < |t| ensures !(t[i - 1] == '-' && t[i] == '-') {
        assert t[i - 1] == s[lo + i - 1] && t[i] == s[lo + i];
      }
    }
  }

  /** The name part of a slug. */
  function FormatName(name: string): (r: string)
    ensures IsSlugName(r)
    ensures Alnums(r) == Alnums(Lower(name))
  {
    TrimHyphens(Collapse(Lower(name)))
  }

  /** A string made of slug characters with single hyphens passes through
      `Collapse` unchanged. */
  lemma {:induction false} CollapseKeepsSlugText(f: string)
    requires OnlySlugChars(f) && NoDoubleHyphen(f)
    ensures Collapse(f) == f
    decreases |f|
  {
    if |f| > 0 {
      var tail := f[1..];
      assert OnlySlugChars(tail) && NoDoubleHyphen(tail) by {
        forall i | 0 < i < |tail| ensures !(tail[i - 1] == '-' && tail[i] == '-') {
          assert tail[i - 1] == f[i] && tail[i] == f[i + 1];
        }
      }
      if !IsLowerAlnum(f[0]) {
        assert |tail| > 0 ==> f[1] != '-';
        assert DropRun(tail) == tail;
      }
      CollapseKeepsSlugText(tail);
      assert f == [f[0]] + tail;
    }
  }

  /** The well-formed names are exactly the names formatting leaves alone. */
  lemma FormatNameFixedPoints(f: string)
    ensures FormatName(f) == f <==> IsSlugName(f)
  {
    if IsSlugName(f) {
      assert Lower(f) == f;
      CollapseKeepsSlugText(f);
    }
  }

  /** Formatting an already formatted name returns it unchanged. */
  lemma FormatNameIdempotent(name: string)
    ensures FormatName(FormatName(name)) == FormatName(name)
  {
    FormatNameFixedPoints(FormatName(name));
  }

  /** A maximal piece of a name: letters and digits only, at least one. */
  predicate IsWord(w: string) {
    |w| > 0 && forall j :: 0 <= j < |w| ==> IsLowerAlnum(w[j])
  }

  /** The longest prefix of `s` made of `[a-z0-9]`. */
  function TakeWord(s: string): (w: string)
    ensures |w| <= |s| && w == s[..|w|]
    ensures forall j :: 0 <= j < |w| ==> IsLowerAlnum(w[j])
    ensures |w| < |s| ==> !IsLowerAlnum(s[|w|])
    ensures |s| > 0 && IsLowerAlnum(s[0]) ==> |w| > 0
  {
    if |s| == 0 || !IsLowerAlnum(s[0]) then [] else [s[0]] + TakeWord(s[1..])
  }

  /** The maximal runs of `[a-z0-9]` in `s`, in order. */
  function Words(s: string): (ws: seq<string>)
    ensures forall i :: 0 <= i < |ws| ==> IsWord(ws[i])
    decreases |s|
  {
    var r := DropRun(s);
    if |r| == 0 then []
    else
      var w := TakeWord(r);
      [w] + Words(r[|w|..])
  }

  /** The words joined by single hyphens. */
  function JoinWords(ws: seq<string>): string {
    if |ws| == 0 then "" else Join(ws, '-')
  }

  /** Joined words begin and end with a letter or digit. */
  lemma {:induction false} JoinWordsEnds(ws: seq<string>)
    requires |ws| > 0
    requires forall i :: 0 <= i < |ws| ==> IsWord(ws[i])
    ensures var j := JoinWords(ws); |j| > 0 && IsLowerAlnum(j[0]) && IsLowerAlnum(j[|j| - 1])
  {
    assert IsWord(ws[0]);
    if |ws| > 1 {
      JoinWordsEnds(ws[1..]);
    }
  }

  /** `Collapse` passes a leading word through. */
  lemma {:induction false} CollapseWord(s: string)
    ensures var w := TakeWord(s); Collapse(s) == w + Collapse(s[|w|..])
    decreases |s|
  {
    var w := TakeWord(s);
    if |w| > 0 {
      assert IsLowerAlnum(s[0]);
      assert Collapse(s) == [s[0]] + Collapse(s[1..]);
      CollapseWord(s[1..]);
      assert TakeWord(s[1..]) == w[1..];
      assert s[1..][|w| - 1..] == s[|w|..];
      assert w == [s[0]] + w[1..];
      ConsAppend(s[0], w[1..], Collapse(s[|w|..]));
    } else {
      assert s[|w|..] == s;
    }
  }

  /** Concatenation regrouped. Kept as separate lemmas so this step stays
      out of the larger proofs that use it. */
  lemma ConsAppend(c: char, a: string, b: string)
    ensures [c] + (a + b) == ([c] + a) + b
  {
  }

  lemma Regroup(a: string, b: string, c: string, d: string)
    ensures a + (b + (c + d)) == a + b + c + d
  {
  }

  predicate EndsInRun(s: string) {
    |s| > 0 && !IsLowerAlnum(s[|s| - 1])
  }

  /** On a string that starts with a word (or is empty), `Collapse` gives
      the words joined by hyphens, plus one hyphen if it ends in a run. */
  lemma {:induction false} CollapseWords(s: string)
    requires |s| == 0 || IsLowerAlnum(s[0])
    ensures Collapse(s) == JoinWords(Words(s)) + (if EndsInRun(s) then "-" else "")
    decreases |s|
  {
    if |s| > 0 {
      var w := TakeWord(s);
      var rest := s[|w|..];
      CollapseWord(s);
      WordsFront(s);
      if |rest| > 0 {
        var r' := DropRun(rest[1..]);
        RunFront(rest);
        CollapseWords(r');
        if |r'| == 0 {
          CollapseWordThenRun(s, w, rest);
        } else {
          CollapseWordThenWords(s, w, rest, r');
        }
      } else {
        assert s[|s| - 1] == w[|w| - 1];
        assert Collapse(s) == w by {
          assert Collapse(rest) == [];
        }
        assert JoinWords(Words(s)) == w by {
          assert Words(rest) == [];
          assert Words(s) == [w];
        }
      }
    }
  }

  /** A string that starts with a word splits into that word and the
      words of the remainder. */
  lemma WordsFront(s: string)
    requires |s| > 0 && IsLowerAlnum(s[0])
    ensures var w := TakeWord(s);
            && |w| > 0 && s == w + s[|w|..]
            && Words(s) == [w] + Words(s[|w|..])
  {
    var w := TakeWord(s);
    assert w == s[..|w|];
    assert s == s[..|w|] + s[|w|..];
    assert DropRun(s) == s;
  }

  /** A string that starts with a run collapses to a hyphen and then the
      rest after the run, and has the same words as that rest. */
  lemma RunFront(rest: string)
    requires |rest| > 0 && !IsLowerAlnum(rest[0])
    ensures Collapse(rest) == "-" + Collapse(DropRun(rest[1..]))
    ensures Words(rest) == Words(DropRun(rest[1..]))
  {
    assert DropRun(rest) == DropRun(rest[1..]);
  }

  /** A string that starts with a run which `DropRun` carries to the end
      ends in a run. */
  lemma RunToEnd(rest: string)
    requires |rest| > 0 && !IsLowerAlnum(rest[0])
    requires DropRun(rest[1..]) == []
    ensures EndsInRun(rest)
  {
    if |rest| > 1 {
      NoWordInRun(rest[1..]);
      assert rest[|rest| - 1] == rest[1..][|rest| - 2];
    }
  }

  /** The case of `CollapseWords` where one word is followed by a run
      that reaches the end. */
  lemma CollapseWordThenRun(s: string, w: string, rest: string)
    requires |rest| > 0 && !IsLowerAlnum(rest[0]) && |w| > 0
    requires s == w + rest
    requires Collapse(s) == w + Collapse(rest)
    requires Collapse(rest) == "-" + Collapse(DropRun(rest[1..]))
    requires DropRun(rest[1..]) == []
    requires Words(s) == [w] + Words(rest)
    requires Words(rest) == Words(DropRun(rest[1..]))
    ensures Collapse(s) == JoinWords(Words(s)) + (if EndsInRun(s) then "-" else "")
  {
    RunToEnd(rest);
    assert s[|s| - 1] == rest[|rest| - 1];
    assert Words(rest) == [];
    assert JoinWords(Words(s)) == w by {
      assert Words(s) == [w];
    }
    assert Collapse(rest) == "-";
  }

  /** The case of `CollapseWords` where one word is followed by a run and
      more words. */
  lemma CollapseWordThenWords(s: string, w: string, rest: string, r': string)
    requires |rest| > 0 && |w| > 0 && |r'| > 0
    requires s == w + rest
    requires r' == DropRun(rest[1..])
    requires Collapse(s) == w + Collapse(rest)
    requires Collapse(rest) == "-" + Collapse(r')
    requires Collapse(r') == JoinWords(Words(r')) + (if EndsInRun(r') then "-" else "")
    requires Words(s) == [w] + Words(rest)
    requires Words(rest) == Words(r')
    ensures Collapse(s) == JoinWords(Words(s)) + (if EndsInRun(s) then "-" else "")
  {
    assert r' == rest[1..][|rest| - 1 - |r'|..];
    assert s[|s| - 1] == r'[|r'| - 1];
    assert EndsInRun(s) == EndsInRun(r');
    var ws := Words(r');
    assert |ws| > 0 by {
      assert IsLowerAlnum(r'[0]);
      assert DropRun(r') == r';
    }
    var tail := if EndsInRun(r') then "-" else "";
    calc {
      Collapse(s);
      w + ("-" + (JoinWords(ws) + tail));
      { Regroup(w, "-", JoinWords(ws), tail); }
      w + "-" + JoinWords(ws) + tail;
    }
    assert JoinWords(Words(s)) == w + "-" + JoinWords(ws) by {
      assert ([w] + ws)[1..] == ws;
    }
  }

  /** `DropRun` empties exactly the strings with no letter or digit. */
  lemma {:induction false} NoWordInRun(s: string)
    ensures DropRun(s) == [] <==> forall i :: 0 <= i < |s| ==> !IsLowerAlnum(s[i])
    decreases |s|
  {
    if |s| > 0 {
      NoWordInRun(s[1..]);
      assert forall i :: 1 <= i < |s| ==> s[i] == s[1..][i - 1];
    }
  }

  /** Trimming joined words followed by an optional hyphen leaves the
      words. */
  lemma TrimAfterWords(j: string, trail: string)
    requires trail == "" || trail == "-"
    requires |j| > 0 ==> IsLowerAlnum(j[0]) && IsLowerAlnum(j[|j| - 1])
    ensures TrimHyphens(j + trail) == j
  {
    if |j| > 0 && |trail| > 0 {
      assert (j + trail)[..|j|] == j;
    }
  }

  /** Trimming a hyphen, joined words and an optional hyphen leaves the
      words; with no words there is only the one hyphen. */
  lemma TrimAroundWords(j: string, trail: string)
    requires trail == "" || trail == "-"
    requires |j| == 0 ==> trail == ""
    requires |j| > 0 ==> IsLowerAlnum(j[0]) && IsLowerAlnum(j[|j| - 1])
    ensures TrimHyphens(['-'] + (j + trail)) == j
  {
    var s := ['-'] + (j + trail);
    assert s[1..] == j + trail;
    if |trail| > 0 {
      assert (j + trail)[..|j|] == j;
    }
  }

  /** The name part of a slug is exactly the runs of letters and digits of
      the lower-cased name, joined by single hyphens. */
  lemma FormatNameIsJoinedWords(name: string)
    ensures FormatName(name) == JoinWords(Words(Lower(name)))
  {
    var l := Lower(name);
    var ws := Words(l);
    var j := JoinWords(ws);
    if |ws| > 0 {
      JoinWordsEnds(ws);
    }
    var c := Collapse(l);
    if |l| == 0 || IsLowerAlnum(l[0]) {
      CollapseWords(l);
      var trail := if EndsInRun(l) then "-" else "";
      assert c == j + trail;
      TrimAfterWords(j, trail);
    } else {
      var r' := DropRun(l[1..]);
      assert DropRun(l) == r';
      assert Words(l) == Words(r');
      CollapseWords(r');
      var trail := if EndsInRun(r') then "-" else "";
      assert Collapse(r') == j + trail;
      assert c == ['-'] + Collapse(r');
      if |ws| == 0 {
        assert |r'| == 0;
      }
      TrimAroundWords(j, trail);
    }
  }

  /** Splitting the name part on hyphens gives back the words; a name with
      no letter or digit formats to the empty string, which splits into
      one empty part. */
  lemma FormatNameSplitsIntoWords(name: string)
    ensures var ws := Words(Lower(name));
            Split(FormatName(name), '-') == if |ws| == 0 then [""] else ws
  {
    var ws := Words(Lower(name));
    FormatNameIsJoinedWords(name);
    if |ws| > 0 {
      forall i | 0 <= i < |ws| ensures '-' !in ws[i] {
        assert IsWord(ws[i]);
      }
      SplitJoin(ws, '-');
    } else {
      assert FormatName(name) == "";
    }
  }

  /** `generateSlug(postDate, name)`. `formatDate` stands for
      `new Date(postDate).toISOString().split('T')[0]` and is `None` where
      that throws; a missing postDate is an invalid date, and a missing
      name makes `name.toLowerCase()` throw. The slug is the formatted date,
      one hyphen, and the formatted name. */
  function GenerateSlug(formatDate: string -> Option<string>, postDate: Option<string>,
                        name: Option<string>): (r: Option<string>)
    ensures r.Some? <==> postDate.Some? && formatDate(postDate.value).Some? && name.Some?
    ensures r.Some? ==>
              var date := formatDate(postDate.value).value;
              && |r.value| > |date|
              && r.value[..|date|] == date
              && r.value[|date|] == '-'
              && IsSlugName(r.value[|date| + 1..])
              && Alnums(r.value[|date| + 1..]) == Alnums(Lower(name.value))
    ensures r.Some? ==>
              r.value == formatDate(postDate.value).value + "-" + JoinWords(Words(Lower(name.value)))
  {
    if postDate.None? then None
    else
      match formatDate(postDate.value)
      case None => None
      case Some(date) =>
        if name.None? then None
        else
          var slug := date + "-" + FormatName(name.value);
          assert slug[|date| + 1..] == FormatName(name.value);
          FormatNameIsJoinedWords(name.value);
          Some(slug)
  }

  /** The slug determines its name part: two names give the same slug on
      the same date exactly when they format alike. */
  lemma SlugNamePart(formatDate: string -> Option<string>, postDate: string, a: string, b: string)
    requires formatDate(postDate).Some?
    ensures GenerateSlug(formatDate, Some(postDate), Some(a)) == GenerateSlug(formatDate, Some(postDate), Some(b))
            <==> FormatName(a) == FormatName(b)
  {
    var date := formatDate(postDate).value;
    var sa := GenerateSlug(formatDate, Some(postDate), Some(a)).value;
    var sb := GenerateSlug(formatDate, Some(postDate), Some(b)).value;
    assert sa == date + "-" + FormatName(a);
    assert sb == date + "-" + FormatName(b);
    if sa == sb {
      assert sa[|date| + 1..] == FormatName(a);
      assert sb[|date| + 1..] == FormatName(b);
    }
  }
}
