/** The catalog search: the term is trimmed and lower-cased, and a book is
    kept when its lower-cased title, author, genre or ISBN contains it. */
module Catalog {
  import opened Seqs
  import opened Models

  /** The characters `String.prototype.trim` removes: the JavaScript
      white-space and line-terminator characters. */
  predicate IsSpace(c: char)
  {
    || c == ' ' || c == '\t' || c == '\n' || c == '\r' || c == '\U{000B}' || c == '\U{000C}'
    || c == '\U{00A0}' || c == '\U{1680}' || ('\U{2000}' <= c <= '\U{200A}')
    || c == '\U{2028}' || c == '\U{2029}' || c == '\U{202F}' || c == '\U{205F}'
    || c == '\U{3000}' || c == '\U{FEFF}'
  }

  predicate AllSpace(s: string)
  {
    forall c <- s :: IsSpace(c)
  }

  function TrimStart(s: string): (r: string)
    ensures r == [] || !IsSpace(r[0])
    ensures |r| <= |s| && r == s[|s| - |r|..]
    ensures AllSpace(s[..|s| - |r|])
  {
    if s != [] && IsSpace(s[0]) then
      var r := TrimStart(s[1..]);
      assert s[..|s| - |r|] == [s[0]] + s[1..][..|s| - 1 - |r|];
      r
    else s
  }

  function TrimEnd(s: string): (r: string)
    ensures r == [] || !IsSpace(r[|r| - 1])
    ensures |r| <= |s| && r == s[..|r|]
    ensures AllSpace(s[|r|..])
  {
    if s != [] && IsSpace(s[|s| - 1]) then
      var r := TrimEnd(s[..|s| - 1]);
      assert s[|r|..] == s[..|s| - 1][|r|..] + [s[|s| - 1]];
      r
    else s
  }

  /** `r` is `s` from position `i` on, less white space on both sides. */
  ghost predicate TrimmedAt(s: string, r: string, i: int)
  {
    0 <= i <= i + |r| <= |s| && r == s[i..i + |r|] && AllSpace(s[..i]) && AllSpace(s[i + |r|..])
  }

  /** `trim`: `s` without its leading and trailing white space. */
  function Trim(s: string): (r: string)
    ensures exists i :: TrimmedAt(s, r, i)
    ensures r == [] || (!IsSpace(r[0]) && !IsSpace(r[|r| - 1]))
  {
    var t := TrimStart(s);
    var r := TrimEnd(t);
    TrimParts(s, t, r);
    r
  }

  lemma TrimParts(s: string, t: string, r: string)
    requires |t| <= |s| && t == s[|s| - |t|..] && AllSpace(s[..|s| - |t|])
    requires t == [] || !IsSpace(t[0])
    requires |r| <= |t| && r == t[..|r|] && AllSpace(t[|r|..])
    requires r == [] || !IsSpace(r[|r| - 1])
    ensures TrimmedAt(s, r, |s| - |t|)
    ensures r == [] || (!IsSpace(r[0]) && !IsSpace(r[|r| - 1]))
  {
    var i := |s| - |t|;
    if r != [] {
      assert r[0] == t[0];
    }
    assert r == s[i..i + |r|];
    assert s[i + |r|..] == t[|r|..];
  }

  /** ASCII `toLowerCase`. */
  function LowerChar(c: char): char
  {
    if 'A' <= c <= 'Z' then (c as int + 32) as char else c
  }

  function ToLower(s: string): (r: string)
    ensures |r| == |s|
    ensures forall i :: 0 <= i < |s| ==> r[i] == LowerChar(s[i])
  {
    seq(|s|, i requires 0 <= i < |s| => LowerChar(s[i]))
  }

  /** `s` begins with `t`. */
  predicate StartsWith(s: string, t: string)
  {
    |t| <= |s| && s[..|t|] == t
  }

  /** `t` occurs in `s` starting at position `i`. */
  ghost predicate OccursAt(s: string, t: string, i: int)
  {
    0 <= i <= |s| - |t| && s[i..i + |t|] == t
  }

  /** Past a non-matching head, `t` occurs in `s` exactly when it occurs in
      the rest. */
  lemma OccursInTail(s: string, t: string)
    requires s != [] && !StartsWith(s, t)
    ensures (exists i :: OccursAt(s, t, i)) <==> (exists i :: OccursAt(s[1..], t, i))
  {
    forall i | OccursAt(s[1..], t, i) ensures OccursAt(s, t, i + 1) {
      assert s[i + 1..i + 1 + |t|] == s[1..][i..i + |t|];
    }
    assert !OccursAt(s, t, 0) by {
      if |t| <= |s| {
        assert s[0..|t|] == s[..|t|];
      }
    }
    forall i | OccursAt(s, t, i) ensures OccursAt(s[1..], t, i - 1) {
      assert i != 0;
      assert s[1..][i - 1..i - 1 + |t|] == s[i..i + |t|];
    }
  }

  /** `s.includes(t)`: `t` occurs somewhere in `s`. */
  function Includes(s: string, t: string): (r: bool)
    ensures r <==> exists i :: OccursAt(s, t, i)
  {
    if StartsWith(s, t) then
      assert OccursAt(s, t, 0);
      true
    else if s == [] then false
    else
      OccursInTail(s, t);
      Includes(s[1..], t)
  }

  /** A book matches a lower-cased key when one of its four searched fields,
      lower-cased, contains the key. */
  predicate Matches(b: Book, key: string)
  {
    || Includes(ToLower(b.title), key)
    || Includes(ToLower(b.author), key)
    || Includes(ToLower(b.genre), key)
    || Includes(ToLower(b.isbn), key)
  }

  function MatchesKey(key: string): Book -> bool
  {
    (b: Book) => Matches(b, key)
  }

  /** The key a search term is reduced to: `term.trim().toLowerCase()`. */
  function SearchKey(term: string): (key: string)
    ensures key == [] <==> AllSpace(term)
  {
    ToLower(Trim(term))
  }

  /** `filteredBooks$`: every book when the trimmed term is empty; otherwise
      exactly the matching books, in catalog order. */
  function Search(books: seq<Book>, term: string): (r: seq<Book>)
    ensures SearchKey(term) == [] ==> r == books
    ensures IsSubsequence(r, books)
    ensures SearchKey(term) != [] ==> forall b <- r :: Matches(b, SearchKey(term))
    ensures forall b <- books :: Matches(b, SearchKey(term)) ==> b in r
    ensures SearchKey(term) != [] ==>
              forall b <- books :: multiset(r)[b] == if Matches(b, SearchKey(term)) then multiset(books)[b] else 0
  {
    var t := SearchKey(term);
    if t == [] then
      SubsequenceOfSelf(books);
      books
    else Filter(books, MatchesKey(t))
  }

  lemma {:induction false} SubsequenceOfSelf<T>(s: seq<T>)
    ensures IsSubsequence(s, s)
    decreases |s|
  {
    if s != [] {
      SubsequenceOfSelf(s[1..]);
    }
  }

  // ---------------------------------------------------------------------
  // The search ignores case and surrounding white space in the term

  lemma LowerCharKeepsSpace(c: char)
    ensures IsSpace(LowerChar(c)) == IsSpace(c)
  {
  }

  lemma {:induction false} TrimStartToLower(s: string)
    ensures TrimStart(ToLower(s)) == ToLower(TrimStart(s))
    decreases |s|
  {
    if s != [] {
      LowerCharKeepsSpace(s[0]);
      assert ToLower(s)[1..] == ToLower(s[1..]);
      TrimStartToLower(s[1..]);
    }
  }

  lemma {:induction false} TrimEndToLower(s: string)
    ensures TrimEnd(ToLower(s)) == ToLower(TrimEnd(s))
    decreases |s|
  {
    if s != [] {
      LowerCharKeepsSpace(s[|s| - 1]);
      assert ToLower(s)[..|s| - 1] == ToLower(s[..|s| - 1]);
      TrimEndToLower(s[..|s| - 1]);
    }
  }

  lemma ToLowerIdempotent(s: string)
    ensures ToLower(ToLower(s)) == ToLower(s)
  {
    var l := ToLower(s);
    assert forall i :: 0 <= i < |s| ==> ToLower(l)[i] == l[i];
  }

  /** Lower-casing the term first gives the same key. */
  lemma KeyIgnoresCase(term: string)
    ensures SearchKey(ToLower(term)) == SearchKey(term)
  {
    TrimStartToLower(term);
    TrimEndToLower(TrimStart(term));
    ToLowerIdempotent(Trim(term));
  }

  /** Lower-casing the term first changes nothing: matching ignores case. */
  lemma SearchIgnoresCase(books: seq<Book>, term: string)
    ensures Search(books, ToLower(term)) == Search(books, term)
  {
    KeyIgnoresCase(term);
  }

  lemma {:induction false} TrimStartSpacePrefix(pre: string, s: string)
    requires AllSpace(pre)
    ensures TrimStart(pre + s) == TrimStart(s)
    decreases |pre|
  {
    if pre != [] {
      var x := pre + s;
      assert IsSpace(x[0]);
      assert TrimStart(x) == TrimStart(x[1..]);
      assert x[1..] == pre[1..] + s;
      TrimStartSpacePrefix(pre[1..], s);
    } else {
      assert pre + s == s;
    }
  }

  lemma {:induction false} TrimEndSpaceSuffix(s: string, post: string)
    requires AllSpace(post)
    ensures TrimEnd(s + post) == TrimEnd(s)
    decreases |post|
  {
    if post != [] {
      var p := post[..|post| - 1];
      var x := s + post;
      assert IsSpace(x[|x| - 1]);
      assert TrimEnd(x) == TrimEnd(x[..|x| - 1]);
      assert x[..|x| - 1] == s + p;
      TrimEndSpaceSuffix(s, p);
    } else {
      assert s + post == s;
    }
  }

  lemma {:induction false} TrimStartAppend(x: string, y: string)
    ensures TrimStart(x + y) == if TrimStart(x) == [] then TrimStart(y) else TrimStart(x) + y
    decreases |x|
  {
    if x != [] {
      assert (x + y)[1..] == x[1..] + y;
      TrimStartAppend(x[1..], y);
    } else {
      assert x + y == y;
    }
  }

  /** White space around the term changes nothing. */
  lemma SearchIgnoresSurroundingSpace(books: seq<Book>, pre: string, term: string, post: string)
    requires AllSpace(pre) && AllSpace(post)
    ensures Search(books, pre + term + post) == Search(books, term)
  {
    assert pre + term + post == pre + (term + post);
    TrimStartSpacePrefix(pre, term + post);
    TrimStartAppend(term, post);
    if TrimStart(term) == [] {
      TrimStartSpacePrefix(post, []);
      assert post + [] == post;
    } else {
      TrimEndSpaceSuffix(TrimStart(term), post);
    }
  }
}
