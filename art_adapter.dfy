/**
 * The two display rules of the list adapter (ArtAdapter.java): the colour of
 * the category rectangle and the rewrite of the publication date.
 */
module ArtAdapter {

  /**
   * A colour resource: Color(n) is R.color.color<n>. The integer value behind
   * each resource is not part of the model.
   */
  datatype ColorKey = Color(n: nat) | DefaultColor

  /** The categories of the switch, in the order of its cases. */
  const CATEGORIES: seq<string> := [
    "Culture", "Art and design", "Film", "Music", "Education",
    "Television & radio", "Cities", "Life and style", "Opinion", "Global"
  ]

  /**
   * getCategoryColor: the i-th category of the switch (exact string
   * equality) selects color<i+1>; every other string selects defaultColor.
   */
  function CategoryColor(category: string): (color: ColorKey)
    ensures color != DefaultColor <==> category in CATEGORIES
    ensures forall i :: 0 <= i < |CATEGORIES| && CATEGORIES[i] == category ==> color == Color(i + 1)
  {
    if category == "Culture" then Color(1)
    else if category == "Art and design" then Color(2)
    else if category == "Film" then Color(3)
    else if category == "Music" then Color(4)
    else if category == "Education" then Color(5)
    else if category == "Television & radio" then Color(6)
    else if category == "Cities" then Color(7)
    else if category == "Life and style" then Color(8)
    else if category == "Opinion" then Color(9)
    else if category == "Global" then Color(10)
    else DefaultColor
  }

  /** The named colours are color1..color10 and no two categories share one. */
  lemma CategoryColorInjective(a: string, b: string)
    requires a in CATEGORIES && b in CATEGORIES
    ensures CategoryColor(a).Color? && 1 <= CategoryColor(a).n <= 10
    ensures CategoryColor(a) == CategoryColor(b) <==> a == b
  {
    var i :| 0 <= i < |CATEGORIES| && CATEGORIES[i] == a;
    var j :| 0 <= j < |CATEGORIES| && CATEGORIES[j] == b;
    if i != j {
      assert CategoryColor(a) == Color(i + 1) && CategoryColor(b) == Color(j + 1);
    }
  }

  /** The match is case-sensitive: a lower-case variant falls through to the default. */
  lemma CaseVariantsGetDefault()
    ensures CategoryColor("film") == DefaultColor
    ensures CategoryColor("Film") == Color(3) && CategoryColor("Music") == Color(4)
    ensures CategoryColor("NotACategory") == DefaultColor
  {
  }

  /**
   * String.replace with a one-character target: every occurrence of `target`
   * becomes `replacement`, every other character is kept in order.
   */
  function Replace(s: string, target: char, replacement: string): (r: string)
    ensures forall c :: c in r ==> c in replacement || (c in s && c != target)
  {
    if s == [] then []
    else (if s[0] == target then replacement else [s[0]]) + Replace(s[1..], target, replacement)
  }

  /** The date shown by getView: `T` replaced by a tab, then `Z` deleted. */
  function FormatDate(date: string): (shown: string)
    ensures 'T' !in shown && 'Z' !in shown
  {
    Replace(Replace(date, 'T', "\t"), 'Z', "")
  }

  /** What the rewrite does to a single character. */
  function RewriteChar(c: char): (shown: string)
  {
    if c == 'T' then "\t" else if c == 'Z' then "" else [c]
  }

  /** A single character: the target becomes the replacement, any other character stays. */
  lemma ReplaceChar(c: char, target: char, replacement: string)
    ensures Replace([c], target, replacement) == if c == target then replacement else [c]
  {
    assert [c][1..] == [];
  }

  lemma {:induction false} ReplaceAppend(a: string, b: string, target: char, replacement: string)
    ensures Replace(a + b, target, replacement) == Replace(a, target, replacement) + Replace(b, target, replacement)
  {
    if a != [] {
      assert (a + b)[0] == a[0] && (a + b)[1..] == a[1..] + b;
      ReplaceAppend(a[1..], b, target, replacement);
    } else {
      assert a + b == b;
    }
  }

  /** The rewrite works character by character, from the first to the last. */
  lemma FormatDateCons(c: char, s: string)
    ensures FormatDate([c] + s) == RewriteChar(c) + FormatDate(s)
  {
    var head := if c == 'T' then "\t" else [c];
    assert Replace([c] + s, 'T', "\t") == head + Replace(s, 'T', "\t") by {
      assert ([c] + s)[1..] == s;
    }
    ReplaceAppend(head, Replace(s, 'T', "\t"), 'Z', "");
    assert Replace(head, 'Z', "") == RewriteChar(c) by {
      assert head[1..] == [];
    }
  }

  /** Rewriting a concatenation rewrites each part. */
  lemma FormatDateAppend(a: string, b: string)
    ensures FormatDate(a + b) == FormatDate(a) + FormatDate(b)
  {
    ReplaceAppend(a, b, 'T', "\t");
    ReplaceAppend(Replace(a, 'T', "\t"), Replace(b, 'T', "\t"), 'Z', "");
  }

  /** The rewrite deletes exactly the `Z`s: the length drops by their number. */
  lemma {:induction false} FormatDateLength(date: string)
    ensures |FormatDate(date)| == |date| - multiset(date)['Z']
  {
    if date != [] {
      assert date == [date[0]] + date[1..];
      FormatDateCons(date[0], date[1..]);
      FormatDateLength(date[1..]);
    }
  }

  /** A string without `T` and `Z` is shown unchanged. */
  lemma {:induction false} FormatDateKeepsOthers(s: string)
    requires 'T' !in s && 'Z' !in s
    ensures FormatDate(s) == s
  {
    if s != [] {
      assert s == [s[0]] + s[1..];
      FormatDateCons(s[0], s[1..]);
      FormatDateKeepsOthers(s[1..]);
    }
  }

  /** Rewriting twice is rewriting once. */
  lemma FormatDateIdempotent(date: string)
    ensures FormatDate(FormatDate(date)) == FormatDate(date)
  {
    FormatDateKeepsOthers(FormatDate(date));
  }

  /**
   * A timestamp of the feed's form `<date>T<time>Z` is shown as
   * `<date>`, a tab, `<time>`.
   */
  lemma FormatDateTimestamp(date: string, time: string)
    requires 'T' !in date && 'Z' !in date && 'T' !in time && 'Z' !in time
    ensures FormatDate(date + ['T'] + time + ['Z']) == date + ['\t'] + time
  {
    var dateTime := date + (['T'] + time);
    assert FormatDate(dateTime) == date + ['\t'] + time by {
      FormatDateAppend(date, ['T'] + time);
      FormatDateCons('T', time);
      FormatDateKeepsOthers(date);
      FormatDateKeepsOthers(time);
    }
    assert FormatDate(['Z']) == [] by {
      FormatDateCons('Z', "");
      assert ['Z'] + "" == ['Z'];
    }
    assert date + ['T'] + time + ['Z'] == dateTime + ['Z'];
    FormatDateAppend(dateTime, ['Z']);
  }

  lemma FormatDateSample()
    ensures FormatDate("2018-05-09T16:49:09Z") == "2018-05-09\t16:49:09"
  {
    // The parts are bound by such-that so that the verifier does not unfold
    // FormatDate over the whole literal.
    var date: string :| date == "2018-05-09";
    var time: string :| time == "16:49:09";
    SampleParts(date, time);
    FormatDateTimestamp(date, time);
  }

  /** How the sample timestamp and its shown form are made of their parts. */
  lemma SampleParts(date: string, time: string)
    requires date == "2018-05-09" && time == "16:49:09"
    ensures 'T' !in date && 'Z' !in date && 'T' !in time && 'Z' !in time
    ensures date + ['T'] + time + ['Z'] == "2018-05-09T16:49:09Z"
    ensures date + ['\t'] + time == "2018-05-09\t16:49:09"
  {
  }
}
