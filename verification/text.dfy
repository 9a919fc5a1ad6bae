/**
 The two Go library string functions `cleanInput` in main.go is built from:
 `strings.ToLower` (restricted here to the ASCII letters) and `strings.Fields`
 (splitting around maximal runs of Unicode white space).
 */
module Text {

  /**
   Go's `unicode.IsSpace`: the code points carrying the Unicode White_Space
   property (tab through carriage return, space, NEL, no-break space, the
   Ogham space mark, the en quad through hair space, the line and paragraph
   separators, the narrow no-break space, the medium mathematical space and
   the ideographic space).
   */
  predicate IsSpace(c: char) {
    || '\t' <= c <= '\r'
    || c == ' '
    || c == '\U{85}'
    || c == '\U{A0}'
    || c == '\U{1680}'
    || '\U{2000}' <= c <= '\U{200A}'
    || c == '\U{2028}'
    || c == '\U{2029}'
    || c == '\U{202F}'
    || c == '\U{205F}'
    || c == '\U{3000}'
  }

  /**
   Within Latin-1, the white space is exactly the six ASCII space characters
   (tab, line feed, vertical tab, form feed, carriage return, space), NEL and
   the no-break space.
   */
  lemma IsSpaceLatin1(c: char)
    requires c <= '\U{FF}'
    ensures IsSpace(c) <==> c in "\t\n\U{B}\U{C}\r \U{85}\U{A0}"
  {
  }

  predicate IsUpper(c: char) {
    'A' <= c <= 'Z'
  }

  /** Lower-case one character (ASCII letters only; everything else is kept). */
  function LowerChar(c: char): (d: char)
    ensures !IsUpper(d)
    ensures IsSpace(d) <==> IsSpace(c)
    ensures IsUpper(c) ==> d as int == c as int + 32
    ensures !IsUpper(c) ==> d == c
  {
    if IsUpper(c) then (c as int + 32) as char else c
  }

  function ToLower(s: string): (r: string)
    ensures |r| == |s|
    ensures forall i :: 0 <= i < |s| ==> r[i] == LowerChar(s[i])
  {
    seq(|s|, i requires 0 <= i < |s| => LowerChar(s[i]))
  }

  predicate NoUpper(s: string) {
    forall i :: 0 <= i < |s| ==> !IsUpper(s[i])
  }

  predicate AllSpace(s: string) {
    forall i :: 0 <= i < |s| ==> IsSpace(s[i])
  }

  /** A field: non-empty and free of white space. */
  predicate IsWord(w: string) {
    |w| > 0 && forall i :: 0 <= i < |w| ==> !IsSpace(w[i])
  }

  predicate AllWords(ws: seq<string>) {
    forall i :: 0 <= i < |ws| ==> IsWord(ws[i])
  }

  /** Strip the leading white space. */
  function DropSpaces(s: string): (r: string)
    ensures |r| <= |s|
    ensures r == [] || !IsSpace(r[0])
    decreases |s|
  {
    if s != [] && IsSpace(s[0]) then DropSpaces(s[1..]) else s
  }

  /** Length of the longest prefix free of white space. */
  function WordLength(s: string): (n: nat)
    ensures n <= |s|
    ensures forall i :: 0 <= i < n ==> !IsSpace(s[i])
    ensures n == |s| || IsSpace(s[n])
    decreases |s|
  {
    if s != [] && !IsSpace(s[0]) then 1 + WordLength(s[1..]) else 0
  }

  /** `strings.Fields`: the maximal runs of non-white-space characters, in order. */
  function Fields(s: string): (ws: seq<string>)
    ensures AllWords(ws)
    decreases |s|
  {
    var t := DropSpaces(s);
    if t == [] then []
    else
      var n := WordLength(t);
      [t[..n]] + Fields(t[n..])
  }

  /** The words joined by single spaces: a canonical string with the given fields. */
  function Unwords(ws: seq<string>): string
    decreases |ws|
  {
    if ws == [] then ""
    else if |ws| == 1 then ws[0]
    else ws[0] + " " + Unwords(ws[1..])
  }

  // ---------------------------------------------------------------------------
  // Lemmas
  // ---------------------------------------------------------------------------

  /** What `DropSpaces` removes is white space and what it keeps is a suffix. */
  lemma {:induction false} DropSpacesSuffix(s: string)
    ensures var r := DropSpaces(s);
      && r == s[|s| - |r|..]
      && AllSpace(s[..|s| - |r|])
    decreases |s|
  {
    if s != [] && IsSpace(s[0]) {
      DropSpacesSuffix(s[1..]);
      var r := DropSpaces(s[1..]);
      assert s[1..][|s| - 1 - |r|..] == s[|s| - |r|..];
      var dropped := s[..|s| - |r|];
      forall i | 0 <= i < |dropped| ensures IsSpace(dropped[i]) {
        if i > 0 {
          assert dropped[i] == s[1..][..|s| - 1 - |r|][i - 1];
        }
      }
    }
  }

  /** A string yields no fields exactly when it is all white space. */
  lemma FieldsEmptyIff(s: string)
    ensures Fields(s) == [] <==> AllSpace(s)
  {
    DropSpacesSuffix(s);
    var t := DropSpaces(s);
    if t == [] {
      assert s[..|s|] == s;
    } else {
      assert t[0] == s[|s| - |t|];
    }
  }

  /** A leading white-space character does not change the fields. */
  lemma FieldsSkipSpace(c: char, s: string)
    requires IsSpace(c)
    ensures Fields([c] + s) == Fields(s)
  {
    assert ([c] + s)[1..] == s;
    assert DropSpaces([c] + s) == DropSpaces(s);
  }

  /** Leading white space does not change the fields. */
  lemma {:induction false} FieldsDropLeading(p: string, s: string)
    requires AllSpace(p)
    ensures Fields(p + s) == Fields(s)
    decreases |p|
  {
    if p == [] {
      assert p + s == s;
    } else {
      assert p + s == [p[0]] + (p[1..] + s);
      assert IsSpace(p[0]);
      assert AllSpace(p[1..]) by {
        forall i | 0 <= i < |p[1..]| ensures IsSpace(p[1..][i]) {
          assert p[1..][i] == p[i + 1];
        }
      }
      FieldsSkipSpace(p[0], p[1..] + s);
      FieldsDropLeading(p[1..], s);
    }
  }

  /** Appending after a prefix that already ends its word keeps the word's length. */
  lemma {:induction false} WordLengthAppend(x: string, y: string)
    requires WordLength(x) < |x| || (y != [] && IsSpace(y[0]))
    ensures WordLength(x + y) == WordLength(x)
    decreases |x|
  {
    if x == [] {
      assert (x + y)[0] == y[0];
    } else if IsSpace(x[0]) {
      assert (x + y)[0] == x[0];
    } else {
      assert (x + y)[1..] == x[1..] + y;
      WordLengthAppend(x[1..], y);
    }
  }

  /**
   Fields distribute over a non-empty white-space separator: splitting keeps
   the words of each side in order and discards the separator, however long.
   */
  lemma {:induction false} FieldsSplit(a: string, sep: string, b: string)
    requires sep != [] && AllSpace(sep)
    ensures Fields(a + sep + b) == Fields(a) + Fields(b)
    decreases |a|
  {
    if a == [] {
      assert a + sep + b == sep + b;
      FieldsDropLeading(sep, b);
    } else if IsSpace(a[0]) {
      assert a + sep + b == [a[0]] + (a[1..] + sep + b);
      assert a == [a[0]] + a[1..];
      FieldsSkipSpace(a[0], a[1..] + sep + b);
      FieldsSkipSpace(a[0], a[1..]);
      FieldsSplit(a[1..], sep, b);
    } else {
      var t := a + sep + b;
      assert DropSpaces(t) == t;
      assert DropSpaces(a) == a;
      var m := WordLength(a);
      assert t == a + (sep + b);
      WordLengthAppend(a, sep + b);
      assert WordLength(t) == m;
      assert t[..m] == a[..m];
      assert t[m..] == a[m..] + sep + b;
      FieldsSplit(a[m..], sep, b);
    }
  }

  /** Trailing white space does not change the fields. */
  lemma FieldsDropTrailing(s: string, q: string)
    requires AllSpace(q)
    ensures Fields(s + q) == Fields(s)
  {
    if q == [] {
      assert s + q == s;
    } else {
      FieldsSplit(s, q, []);
      assert s + q + [] == s + q;
      assert Fields([]) == [];
    }
  }

  /** A single word is its own only field. */
  lemma FieldsOfWord(w: string)
    requires IsWord(w)
    ensures Fields(w) == [w]
  {
    assert DropSpaces(w) == w;
    var n := WordLength(w);
    assert w[..n] == w;
    assert w[n..] == [];
    assert DropSpaces([]) == [];
  }

  /** Splitting the words joined by single spaces gives the words back. */
  lemma {:induction false} FieldsUnwords(ws: seq<string>)
    requires AllWords(ws)
    ensures Fields(Unwords(ws)) == ws
    decreases |ws|
  {
    if ws == [] {
    } else if |ws| == 1 {
      FieldsOfWord(ws[0]);
    } else {
      assert AllWords(ws[1..]) by {
        forall i | 0 <= i < |ws[1..]| ensures IsWord(ws[1..][i]) {
          assert ws[1..][i] == ws[i + 1];
        }
      }
      FieldsUnwords(ws[1..]);
      FieldsOfWord(ws[0]);
      FieldsSplit(ws[0], " ", Unwords(ws[1..]));
      assert [ws[0]] + ws[1..] == ws;
    }
  }

  /** Every field of a string without ASCII capitals is without ASCII capitals. */
  lemma {:induction false} FieldsNoUpper(s: string)
    requires NoUpper(s)
    ensures forall i :: 0 <= i < |Fields(s)| ==> NoUpper(Fields(s)[i])
    decreases |s|
  {
    DropSpacesSuffix(s);
    var t := DropSpaces(s);
    if t != [] {
      var n := WordLength(t);
      assert NoUpper(t[n..]) by {
        forall i | 0 <= i < |t[n..]| ensures !IsUpper(t[n..][i]) {
          assert t[n..][i] == s[|s| - |t| + n + i];
        }
      }
      FieldsNoUpper(t[n..]);
      assert NoUpper(t[..n]) by {
        forall i | 0 <= i < n ensures !IsUpper(t[..n][i]) {
          assert t[..n][i] == s[|s| - |t| + i];
        }
      }
      var ws := Fields(s);
      assert ws == [t[..n]] + Fields(t[n..]);
      forall i | 0 <= i < |ws| ensures NoUpper(ws[i]) {
        if i > 0 {
          assert ws[i] == Fields(t[n..])[i - 1];
        }
      }
    }
  }

  /** Lower-casing leaves no ASCII capital. */
  lemma ToLowerNoUpper(s: string)
    ensures NoUpper(ToLower(s))
  {
  }

  /** Lower-casing keeps white space where it was. */
  lemma AllSpaceToLower(s: string)
    ensures AllSpace(ToLower(s)) <==> AllSpace(s)
  {
    if AllSpace(ToLower(s)) {
      forall i | 0 <= i < |s| ensures IsSpace(s[i]) {
        assert IsSpace(ToLower(s)[i]);
      }
    }
  }

  /** Lower-casing a string with no capitals changes nothing. */
  lemma ToLowerNoUpperIdentity(s: string)
    requires NoUpper(s)
    ensures ToLower(s) == s
  {
  }
}
