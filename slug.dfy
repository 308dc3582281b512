/** Slug resolution for snippets (src/api/models/snippet.py, `find_by_slug`).
    The repository has no slugify of its own: only the way back from a slug to a
    title, `" ".join(slug.split("-"))`, matched against stored titles with a
    case-insensitive `ILIKE`. */
module Slug {

  /** Python's `s.split(sep)` for a one-character separator: always at least one
      piece, and no piece contains the separator. */
  function Split(s: string, sep: char): (parts: seq<string>)
    ensures |parts| >= 1
    ensures forall i :: 0 <= i < |parts| ==> sep !in parts[i]
    decreases |s|
  {
    if s == [] then [[]]
    else
      var rest := Split(s[1..], sep);
      if s[0] == sep then [[]] + rest
      else [[s[0]] + rest[0]] + rest[1..]
  }

  /** Python's `sep.join(parts)` for a one-character separator. */
  function Join(parts: seq<string>, sep: char): string
    decreases |parts|
  {
    if |parts| == 0 then []
    else if |parts| == 1 then parts[0]
    else parts[0] + [sep] + Join(parts[1..], sep)
  }

  /** Every occurrence of `a` in `s` replaced by `b`, character by character. */
  function Replace(s: string, a: char, b: char): (r: string)
    ensures |r| == |s|
    ensures forall i :: 0 <= i < |s| ==> r[i] == if s[i] == a then b else s[i]
  {
    seq(|s|, i requires 0 <= i < |s| => if s[i] == a then b else s[i])
  }

  lemma ReplaceCons(s: string, a: char, b: char)
    requires s != []
    ensures Replace(s, a, b) == [if s[0] == a then b else s[0]] + Replace(s[1..], a, b)
  {
  }

  /** Prefixing the first piece prefixes the joined string. */
  lemma JoinExtendFirst(x: string, rest: seq<string>, b: char)
    requires |rest| >= 1
    ensures Join([x + rest[0]] + rest[1..], b) == x + Join(rest, b)
  {
    var parts := [x + rest[0]] + rest[1..];
    if |rest| > 1 {
      assert parts[1..] == rest[1..];
      assert Join(parts, b) == x + rest[0] + [b] + Join(rest[1..], b);
    }
  }

  /** Splitting on `a` and joining with `b` is the same as replacing `a` by `b`. */
  lemma {:induction false} JoinSplitIsReplace(s: string, a: char, b: char)
    ensures Join(Split(s, a), b) == Replace(s, a, b)
    decreases |s|
  {
    if s != [] {
      var rest := Split(s[1..], a);
      JoinSplitIsReplace(s[1..], a, b);
      ReplaceCons(s, a, b);
      if s[0] == a {
        var parts := [[]] + rest;
        assert Split(s, a) == parts;
        assert parts[1..] == rest;
        assert Join(parts, b) == [] + [b] + Join(rest, b);
      } else {
        assert Split(s, a) == [[s[0]] + rest[0]] + rest[1..];
        JoinExtendFirst([s[0]], rest, b);
      }
    }
  }

  /** Joining the pieces of a split with the same separator gives the string back. */
  lemma JoinSplitRoundTrip(s: string, c: char)
    ensures Join(Split(s, c), c) == s
  {
    JoinSplitIsReplace(s, c, c);
  }

  /** The title a slug stands for (src/api/models/snippet.py:43): every `-` becomes
      one space and nothing else moves. */
  function Unslug(slug: string): (title: string)
    ensures |title| == |slug|
    ensures '-' !in title
    ensures forall i :: 0 <= i < |slug| ==> title[i] == if slug[i] == '-' then ' ' else slug[i]
  {
    JoinSplitIsReplace(slug, '-', ' ');
    Join(Split(slug, '-'), ' ')
  }

  /** A reference slugify, the inverse the resolver assumes: spaces become `-`.
      The repository itself does not define one. */
  function Slugify(title: string): (slug: string)
    ensures ' ' !in slug
  {
    Replace(title, ' ', '-')
  }

  /** A title without `-` comes back unchanged from its slug. */
  lemma SlugRoundTrip(title: string)
    requires '-' !in title
    ensures Unslug(Slugify(title)) == title
  {
    var t := Unslug(Slugify(title));
    assert forall i :: 0 <= i < |title| ==> t[i] == title[i];
  }

  /** ASCII lower-casing, the case folding that `ILIKE` applies to both sides. */
  function Lower(c: char): char
  {
    if 'A' <= c <= 'Z' then (c as int - 'A' as int + 'a' as int) as char else c
  }

  function Fold(s: string): (r: string)
    ensures |r| == |s|
    ensures forall i :: 0 <= i < |s| ==> r[i] == Lower(s[i])
  {
    seq(|s|, i requires 0 <= i < |s| => Lower(s[i]))
  }

  /** `title ILIKE pattern` for a pattern without wildcards: equality up to case. */
  predicate ILike(title: string, pattern: string)
  {
    Fold(title) == Fold(pattern)
  }

  /** Case folding is idempotent, so a folded pattern matches what the original matched. */
  lemma ILikeFoldedPattern(title: string, pattern: string)
    ensures ILike(title, Fold(pattern)) == ILike(title, pattern)
  {
    assert Fold(Fold(pattern)) == Fold(pattern);
  }

  /** Un-slugging commutes with case folding: `-` and space have no case. */
  lemma UnslugFold(slug: string)
    ensures Unslug(Fold(slug)) == Fold(Unslug(slug))
  {
    var a, b := Unslug(Fold(slug)), Fold(Unslug(slug));
    assert forall i :: 0 <= i < |slug| ==> a[i] == b[i];
  }

  /** A title that contains `-` is never matched by an un-slugged pattern. */
  lemma DashedTitleNeverMatches(title: string, slug: string)
    requires '-' in title
    ensures !ILike(title, Unslug(slug))
  {
    var k :| 0 <= k < |title| && title[k] == '-';
    var u := Unslug(slug);
    if k < |u| {
      assert u[k] != '-';
      assert Fold(u)[k] != Fold(title)[k];
    }
  }

  /** A slug and its lower-cased form un-slug to titles that match the same stored titles. */
  lemma UnslugCaseInsensitive(title: string, slug: string)
    ensures ILike(title, Unslug(Fold(slug))) == ILike(title, Unslug(slug))
  {
    UnslugFold(slug);
    ILikeFoldedPattern(title, Unslug(slug));
  }
}
