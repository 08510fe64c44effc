/** Character-level helpers shared by the other modules: white space, trimming, joining,
    ASCII case folding and decimal numerals. */
module Text {

  /** Go's unicode.IsSpace: the Unicode White_Space property. */
  predicate IsSpace(c: char) {
    c == ' ' || '\U{0009}' <= c <= '\U{000D}' || c == '\U{0085}' || c == '\U{00A0}' || c == '\U{1680}'
    || '\U{2000}' <= c <= '\U{200A}' || c == '\U{2028}' || c == '\U{2029}' || c == '\U{202F}'
    || c == '\U{205F}' || c == '\U{3000}'
  }

  function TrimLeft(s: string): string {
    if s != [] && IsSpace(s[0]) then TrimLeft(s[1..]) else s
  }

  function TrimRight(s: string): string {
    if s != [] && IsSpace(s[|s| - 1]) then TrimRight(s[..|s| - 1]) else s
  }

  /** strings.TrimSpace */
  function Trim(s: string): string {
    TrimRight(TrimLeft(s))
  }

  predicate Blank(s: string) {
    forall i :: 0 <= i < |s| ==> IsSpace(s[i])
  }

  /** Text that trimming leaves alone and that is not empty. */
  predicate Trimmed(s: string) {
    s != [] && !IsSpace(s[0]) && !IsSpace(s[|s| - 1])
  }

  lemma {:induction false} TrimLeftSplits(s: string) returns (w: string)
    ensures Blank(w) && s == w + TrimLeft(s)
    ensures TrimLeft(s) == [] || !IsSpace(TrimLeft(s)[0])
  {
    if s != [] && IsSpace(s[0]) {
      var v := TrimLeftSplits(s[1..]);
      w := [s[0]] + v;
      assert s == [s[0]] + s[1..];
    } else {
      w := [];
    }
  }

  lemma {:induction false} TrimRightSplits(s: string) returns (w: string)
    ensures Blank(w) && s == TrimRight(s) + w
    ensures TrimRight(s) == [] || !IsSpace(TrimRight(s)[|TrimRight(s)| - 1])
  {
    if s != [] && IsSpace(s[|s| - 1]) {
      var v := TrimRightSplits(s[..|s| - 1]);
      w := v + [s[|s| - 1]];
      assert s == s[..|s| - 1] + [s[|s| - 1]];
    } else {
      w := [];
    }
  }

  /** Trimming removes blank text at both ends and nothing else. */
  lemma TrimSplits(s: string) returns (pre: string, post: string)
    ensures Blank(pre) && Blank(post) && s == pre + Trim(s) + post
    ensures Trim(s) == [] || Trimmed(Trim(s))
  {
    pre := TrimLeftSplits(s);
    post := TrimRightSplits(TrimLeft(s));
    if Trim(s) != [] {
      assert TrimLeft(s)[0] == Trim(s)[0];
    }
  }

  /** The decomposition of TrimSplits is the only one. */
  lemma {:induction false} TrimUnique(pre: string, t: string, post: string)
    requires Blank(pre) && Blank(post)
    requires t == [] || Trimmed(t)
    ensures Trim(pre + t + post) == t
  {
    var s := pre + t + post;
    if pre != [] {
      assert s[0] == pre[0] && s[1..] == pre[1..] + t + post;
      TrimUnique(pre[1..], t, post);
    } else if t == [] {
      assert s == post;
      TrimBlank(post);
    } else {
      assert s == t + post && s[0] == t[0];
      TrimRightDrops(t, post);
    }
  }

  lemma {:induction false} TrimBlank(s: string)
    requires Blank(s)
    ensures TrimLeft(s) == [] && Trim(s) == []
  {
    if s != [] {
      TrimBlank(s[1..]);
    }
  }

  lemma {:induction false} TrimRightDrops(t: string, post: string)
    requires Trimmed(t) && Blank(post)
    ensures TrimRight(t + post) == t
  {
    if post == [] {
      assert t + post == t;
    } else {
      var s := t + post;
      assert s[..|s| - 1] == t + post[..|post| - 1] && s[|s| - 1] == post[|post| - 1];
      TrimRightDrops(t, post[..|post| - 1]);
    }
  }

  function Join(parts: seq<string>, sep: string): string {
    if parts == [] then [] else if |parts| == 1 then parts[0] else parts[0] + sep + Join(parts[1..], sep)
  }

  function LowerChar(c: char): char {
    if 'A' <= c <= 'Z' then c - 'A' + 'a' else c
  }

  /** strings.ToLower on ASCII letters. */
  function Fold(s: string): (r: string)
    ensures |r| == |s|
  {
    seq(|s|, i requires 0 <= i < |s| => LowerChar(s[i]))
  }

  /** strings.EqualFold on ASCII letters. */
  predicate EqualFold(a: string, b: string) {
    Fold(a) == Fold(b)
  }

  /** The same letter, large or small, by code points. */
  predicate SameLetter(c: char, d: char) {
    c == d || (65 <= c as int <= 90 && d as int == c as int + 32) || (65 <= d as int <= 90 && c as int == d as int + 32)
  }

  /** Letters of 'A' to 'Z' differ from the small ones by 32; nothing else is folded. */
  lemma EqualFoldIsByLetter(a: string, b: string)
    ensures EqualFold(a, b) <==> |a| == |b| && forall i :: 0 <= i < |a| ==> SameLetter(a[i], b[i])
  {
    forall i | 0 <= i < |a| && i < |b| ensures LowerChar(a[i]) == LowerChar(b[i]) <==> SameLetter(a[i], b[i]) {
      LettersFold(a[i], b[i]);
    }
    if EqualFold(a, b) {
      assert |Fold(a)| == |Fold(b)|;
      forall i | 0 <= i < |a| ensures SameLetter(a[i], b[i]) {
        assert Fold(a)[i] == Fold(b)[i];
      }
    }
  }

  lemma LettersFold(c: char, d: char)
    ensures LowerChar(c) == LowerChar(d) <==> SameLetter(c, d)
  {
  }

  /** The code points of white space. */
  lemma SpaceCodes(c: char)
    ensures IsSpace(c) <==> 9 <= c as int <= 13 || c as int in {32, 133, 160, 5760, 8232, 8233, 8239, 8287, 12288}
                            || 8192 <= c as int <= 8202
  {
  }

  function Digit(d: nat): (c: char)
    requires d < 10
    ensures '0' <= c <= '9' && (c - '0') as int == d
  {
    '0' + d as char
  }

  function NatText(n: nat): (s: string)
    ensures s != [] && forall i :: 0 <= i < |s| ==> '0' <= s[i] <= '9'
  {
    if n < 10 then [Digit(n)] else NatText(n / 10) + [Digit(n % 10)]
  }

  /** strconv.FormatInt(x, 10) */
  function IntText(n: int): (s: string)
    ensures s != []
  {
    if n < 0 then "-" + NatText(-n) else NatText(n)
  }

  function NatValue(s: string): nat
    requires forall i :: 0 <= i < |s| ==> '0' <= s[i] <= '9'
  {
    if s == [] then 0 else 10 * NatValue(s[..|s| - 1]) + (s[|s| - 1] - '0') as int
  }

  lemma {:induction false} NatTextValue(n: nat)
    ensures NatValue(NatText(n)) == n
  {
    var s := NatText(n);
    if n >= 10 {
      NatTextValue(n / 10);
      assert s[..|s| - 1] == NatText(n / 10);
    } else {
      assert s[..|s| - 1] == [];
    }
  }

}
