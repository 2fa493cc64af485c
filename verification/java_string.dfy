/**
  The two java.lang.String operations the rate-limiting filter relies on:
  `startsWith`, which decides whether a path is an admin path, and
  `split` with a one-character, non-regex-special separator and the default
  limit 0, which extracts the client address from `X-Forwarded-For`.
 */
module JavaString {

  /** Java's `s.startsWith(prefix)`: a character-by-character comparison. */
  function StartsWith(s: string, prefix: string): (r: bool)
    ensures r <==> prefix <= s
    decreases |prefix|
  {
    if |prefix| == 0 then true
    else if |s| == 0 then false
    else
      var r := s[0] == prefix[0] && StartsWith(s[1..], prefix[1..]);
      assert prefix <= s <==> s[0] == prefix[0] && prefix[1..] <= s[1..] by {
        if s[0] == prefix[0] && prefix[1..] <= s[1..] {
          assert prefix == [prefix[0]] + prefix[1..];
          assert s == [s[0]] + s[1..];
        }
      }
      r
  }

  /** Reassembles pieces by putting `sep` between neighbours. */
  function Join(parts: seq<string>, sep: char): string
    requires |parts| >= 1
    decreases |parts|
  {
    if |parts| == 1 then parts[0] else parts[0] + [sep] + Join(parts[1..], sep)
  }

  /** The text of `s` before its first `sep`, or all of `s` when there is none. */
  ghost predicate IsFirstField(field: string, s: string, sep: char) {
    && field <= s
    && sep !in field
    && (|field| < |s| ==> s[|field|] == sep)
  }

  /** Prepending a non-separator character to the text extends its first piece. */
  lemma JoinExtendsFirst(c: char, parts: seq<string>, sep: char)
    requires |parts| >= 1
    ensures Join([[c] + parts[0]] + parts[1..], sep) == [c] + Join(parts, sep)
  {
    var r := [[c] + parts[0]] + parts[1..];
    if |parts| > 1 {
      assert r[1..] == parts[1..];
    }
  }

  /** A non-empty text consists of separators only exactly when its head is one and its tail does. */
  lemma SeparatorsOnlyTail(s: string, sep: char)
    requires |s| > 0
    ensures (forall k :: 0 <= k < |s| ==> s[k] == sep) <==>
      s[0] == sep && forall k :: 0 <= k < |s[1..]| ==> s[1..][k] == sep
  {
    if s[0] == sep && forall k :: 0 <= k < |s[1..]| ==> s[1..][k] == sep {
      forall k | 0 <= k < |s| ensures s[k] == sep {
        if k > 0 { assert s[k] == s[1..][k - 1]; }
      }
    }
  }

  /**
    Every maximal run of `s` between separators, empty runs included:
    the intermediate result of `split` before trailing empty strings are removed.
   */
  function Pieces(s: string, sep: char): (r: seq<string>)
    ensures |r| >= 1
    ensures Join(r, sep) == s
    ensures forall i :: 0 <= i < |r| ==> sep !in r[i]
    ensures IsFirstField(r[0], s, sep)
    ensures |r| == 1 <==> sep !in s
    decreases |s|
  {
    if |s| == 0 then [""]
    else
      var rest := Pieces(s[1..], sep);
      assert s == [s[0]] + s[1..];
      if s[0] == sep then
        var r := [""] + rest;
        assert r[1..] == rest;
        r
      else
        var r := [[s[0]] + rest[0]] + rest[1..];
        assert r[0] != "" && s[0] != sep;
        assert sep in s <==> sep in s[1..];
        JoinExtendsFirst(s[0], rest, sep);
        assert forall i :: 1 <= i < |r| ==> r[i] == rest[i];
        r
  }

  /** Every piece is empty exactly when the text consists of separators only. */
  lemma {:induction false} PiecesAllEmpty(s: string, sep: char)
    ensures var r := Pieces(s, sep);
      (forall i :: 0 <= i < |r| ==> r[i] == "") <==> (forall k :: 0 <= k < |s| ==> s[k] == sep)
    decreases |s|
  {
    if |s| > 0 {
      PiecesAllEmpty(s[1..], sep);
      SeparatorsOnlyTail(s, sep);
      var rest := Pieces(s[1..], sep);
      var r := Pieces(s, sep);
      if s[0] == sep {
        assert forall i :: 1 <= i < |r| ==> r[i] == rest[i - 1];
      } else {
        assert r[0] != "";
      }
    }
  }

  /** Removes the empty strings at the end of `parts`, as `split` with limit 0 does. */
  function DropTrailingEmpty(parts: seq<string>): (r: seq<string>)
    ensures r <= parts
    ensures |r| > 0 ==> r[|r| - 1] != ""
    ensures forall i :: |r| <= i < |parts| ==> parts[i] == ""
    decreases |parts|
  {
    if |parts| == 0 || parts[|parts| - 1] != "" then parts
    else DropTrailingEmpty(parts[..|parts| - 1])
  }

  /**
    Java's `s.split(String.valueOf(sep))`. When `sep` does not occur the
    result is `[s]`, even for the empty string; otherwise it is the pieces
    between separators with the trailing empty ones dropped, which leaves
    nothing at all when `s` consists of separators only.
   */
  function Split(s: string, sep: char): (r: seq<string>)
    ensures |r| == 0 <==> |s| > 0 && forall k :: 0 <= k < |s| ==> s[k] == sep
    ensures |r| > 0 ==> IsFirstField(r[0], s, sep)
    ensures forall i :: 0 <= i < |r| ==> sep !in r[i]
    ensures sep !in s ==> r == [s]
    ensures sep in s && |r| > 0 ==> r[|r| - 1] != ""
  {
    if sep !in s then
      assert |s| > 0 ==> s[0] != sep;
      [s]
    else
      PiecesAllEmpty(s, sep);
      DropTrailingEmpty(Pieces(s, sep))
  }
}
