/** Editing an SQL text in place: every token of a list is replaced, from the last one to the first. */
module RenameEdit {

  type Byte = b: int | 0 <= b < 256

  const DOUBLE: Byte := 34
  const SINGLE: Byte := 39
  const SPACE: Byte := 32

  /** sqlite3IsIdChar(): letters, digits, '_', '$' and everything that is not ASCII. */
  predicate IsIdChar(c: Byte) {
    48 <= c <= 57 || 65 <= c <= 90 || 97 <= c <= 122 || c == 95 || c == 36 || 128 <= c
  }

  /** A piece of the SQL text. */
  datatype Token = Token(off: nat, n: nat)

  /** Rename every token, quoted always or only where it was quoted; or turn double-quoted strings into
      single-quoted ones. */
  datatype Mode = Rename(zNew: seq<Byte>, bQuote: bool) | FixQuotes

  // -------------------- quoting --------------------

  function Doubled(q: Byte, s: seq<Byte>): (r: seq<Byte>)
    ensures |s| <= |r| <= 2 * |s|
  {
    if s == [] then [] else (if s[0] == q then [q, q] else [s[0]]) + Doubled(q, s[1..])
  }

  function Quoted(q: Byte, s: seq<Byte>): seq<Byte> {
    [q] + Doubled(q, s) + [q]
  }

  /** What a quoted piece of text means, and where it ends. */
  datatype Reading = Unclosed | Read(text: seq<Byte>, end: nat)

  function Prepend(p: seq<Byte>, r: Reading): Reading {
    match r
    case Unclosed => Unclosed
    case Read(text, end) => Read(p + text, end)
  }

  /** Read on after an opening quote. */
  function ReadQuoted(q: Byte, s: seq<Byte>, i: nat): (r: Reading)
    ensures r.Read? ==> i < r.end <= |s| && |r.text| < r.end - i
    decreases |s| - i
  {
    if i >= |s| then Unclosed
    else if s[i] != q then Prepend([s[i]], ReadQuoted(q, s, i + 1))
    else if i + 1 < |s| && s[i + 1] == q then Prepend([q], ReadQuoted(q, s, i + 2))
    else Read([], i + 1)
  }

  /** What was written quoted is read again, wherever it stands, unless another quote follows. */
  lemma {:induction false} ReadWritten(q: Byte, text: seq<Byte>, s: seq<Byte>, i: nat)
    requires i + |Doubled(q, text)| < |s| && s[i..i + |Doubled(q, text)|] == Doubled(q, text)
    requires var end := i + |Doubled(q, text)|; s[end] == q && (end + 1 < |s| ==> s[end + 1] != q)
    ensures ReadQuoted(q, s, i) == Read(text, i + |Doubled(q, text)| + 1)
    decreases |text|
  {
    var d := Doubled(q, text);
    if text != [] {
      var k := if text[0] == q then 2 else 1;
      assert d[k..] == Doubled(q, text[1..]);
      assert s[i..i + |d|][k..] == s[i + k..i + |d|];
      assert s[i] == s[i..i + |d|][0] == d[0];
      if k == 2 { assert s[i + 1] == s[i..i + |d|][1] == d[1]; }
      ReadWritten(q, text[1..], s, i + k);
    }
  }

  // -------------------- what the edit is for --------------------

  /** The byte at an offset; the text ends with a zero byte. */
  function ByteAt(z: seq<Byte>, i: nat): Byte {
    if i < |z| then z[i] else 0
  }

  function TextOf(z: seq<Byte>, t: Token): seq<Byte>
    requires t.off + t.n <= |z|
  {
    z[t.off..t.off + t.n]
  }

  /** The text of the token is one quoted string. */
  predicate IsString(z: seq<Byte>, t: Token)
    requires t.off + t.n <= |z|
  {
    0 < t.n && z[t.off] == DOUBLE && ReadQuoted(DOUBLE, TextOf(z, t), 1).Read? &&
    ReadQuoted(DOUBLE, TextOf(z, t), 1).end == t.n
  }

  predicate IsToken(m: Mode, z: seq<Byte>, t: Token) {
    0 < t.n && t.off + t.n <= |z| && (m.FixQuotes? ==> IsString(z, t))
  }

  /** What stands for the token in the new text. */
  function Replacement(m: Mode, z: seq<Byte>, t: Token): seq<Byte>
    requires IsToken(m, z, t)
  {
    match m
    case Rename(zNew, bQuote) =>
      if !bQuote && IsIdChar(z[t.off]) then zNew
      else Quoted(DOUBLE, zNew) + if ByteAt(z, t.off + t.n) == DOUBLE then [SPACE] else []
    case FixQuotes =>
      Quoted(SINGLE, ReadQuoted(DOUBLE, TextOf(z, t), 1).text) +
      if ByteAt(z, t.off + t.n) == SINGLE then [SPACE] else []
  }

  /** The tokens are in order and do not overlap. */
  predicate Apart(m: Mode, z: seq<Byte>, toks: seq<Token>) {
    (forall i :: 0 <= i < |toks| ==> IsToken(m, z, toks[i])) &&
    forall i, j :: 0 <= i < j < |toks| ==> toks[i].off + toks[i].n <= toks[j].off
  }

  /** From left to right, the kept pieces of the text and the replacements. */
  function Spliced(m: Mode, z: seq<Byte>, from: nat, toks: seq<Token>): seq<Byte>
    requires from <= |z| && Apart(m, z, toks) && (toks != [] ==> from <= toks[0].off)
    decreases |toks|
  {
    if toks == [] then z[from..]
    else
      var t := toks[0];
      z[from..t.off] + Replacement(m, z, t) + Spliced(m, z, t.off + t.n, toks[1..])
  }

  lemma SplicedFrom(m: Mode, z: seq<Byte>, from: nat, k: nat, toks: seq<Token>)
    requires from <= k <= |z| && Apart(m, z, toks) && (toks != [] ==> k <= toks[0].off)
    ensures Spliced(m, z, from, toks) == z[from..k] + Spliced(m, z, k, toks)
  {
    if toks == [] {
      hide Replacement, Apart;
      assert z[from..] == z[from..k] + z[k..];
    } else {
      hide *;
      var t := toks[0];
      SplicedHead(m, z, from, toks);
      SplicedHead(m, z, k, toks);
      JoinedFrom(z, from, k, t.off, Replacement(m, z, t), Spliced(m, z, t.off + t.n, toks[1..]));
    }
  }

  lemma JoinedFrom(z: seq<Byte>, from: nat, k: nat, to: nat, r: seq<Byte>, rest: seq<Byte>)
    requires from <= k <= to <= |z|
    ensures z[from..to] + r + rest == z[from..k] + (z[k..to] + r + rest)
  {
    assert z[from..to] == z[from..k] + z[k..to];
  }

  lemma SplicedDrop(m: Mode, z: seq<Byte>, k: nat, toks: seq<Token>)
    requires k <= |z| && Apart(m, z, toks) && (toks != [] ==> k <= toks[0].off)
    ensures var s := Spliced(m, z, 0, toks); k <= |s| && s[..k] == z[..k] && s[k..] == Spliced(m, z, k, toks)
  {
    SplicedFrom(m, z, 0, k, toks);
  }

  /** The tokens behind the first one. */
  lemma TokensBehind(m: Mode, z: seq<Byte>, t: Token, toks: seq<Token>)
    requires Apart(m, z, [t] + toks)
    ensures IsToken(m, z, t) && 0 < t.n && t.off + t.n <= |z|
    ensures ([t] + toks)[0] == t && ([t] + toks)[1..] == toks && Apart(m, z, toks)
    ensures toks != [] ==> t.off + t.n <= toks[0].off
  {
    var all := [t] + toks;
    assert all[0] == t && all[1..] == toks;
    assert IsToken(m, z, all[0]);
    hide IsString;
    assert forall i :: 0 <= i < |toks| ==> toks[i] == all[i + 1];
  }

  /** Replacing the token before the others, in the text where the others are replaced. */
  lemma SplicedBefore(m: Mode, z: seq<Byte>, t: Token, toks: seq<Token>)
    requires Apart(m, z, [t] + toks) && Apart(m, z, toks) && IsToken(m, z, t) && t.off + t.n <= |z|
    requires ([t] + toks)[0] == t && ([t] + toks)[1..] == toks
    requires toks != [] ==> t.off + t.n <= toks[0].off
    ensures var s := Spliced(m, z, 0, toks);
            t.off + t.n <= |s| && s[..t.off] + Replacement(m, z, t) + s[t.off + t.n..] == Spliced(m, z, 0, [t] + toks)
  {
    hide IsToken, Replacement, Apart;
    SplicedDrop(m, z, t.off, toks);
    SplicedDrop(m, z, t.off + t.n, toks);
  }

  // -------------------- what the new text means --------------------

  /** Where the replacement of token `k` stands in the new text. */
  function Place(m: Mode, z: seq<Byte>, from: nat, toks: seq<Token>, k: nat): nat
    requires from <= |z| && Apart(m, z, toks) && k < |toks| && from <= toks[0].off
    decreases k
  {
    var t := toks[0];
    if k == 0 then t.off - from
    else t.off - from + |Replacement(m, z, t)| + Place(m, z, t.off + t.n, toks[1..], k - 1)
  }

  /** `r` stands at `p`, and `next` behind it. */
  predicate StandsAt(out: seq<Byte>, p: nat, r: seq<Byte>, next: Byte) {
    p + |r| <= |out| && out[p..p + |r|] == r && ByteAt(out, p + |r|) == next
  }

  /** A token that another one does not touch is followed by what followed it. */
  lemma {:induction false} StandsThere(m: Mode, z: seq<Byte>, from: nat, toks: seq<Token>, k: nat)
    requires from <= |z| && Apart(m, z, toks) && k < |toks| && from <= toks[0].off
    requires k + 1 < |toks| ==> toks[k].off + toks[k].n < toks[k + 1].off
    ensures StandsAt(Spliced(m, z, from, toks), Place(m, z, from, toks, k), Replacement(m, z, toks[k]),
                     ByteAt(z, toks[k].off + toks[k].n))
    decreases k
  {
    hide *;
    TokensApart(m, z, toks);
    if k == 0 {
      StandsFirst(m, z, from, toks);
      PlaceFirst(m, z, from, toks);
    } else {
      var t, rest := toks[0], toks[1..];
      assert rest[k - 1] == toks[k] && (k + 1 < |toks| ==> rest[k] == toks[k + 1]) && rest[0] == toks[1];
      StandsThere(m, z, t.off + t.n, rest, k - 1);
      StandsLater(m, z, from, toks, k, Replacement(m, z, toks[k]), ByteAt(z, toks[k].off + toks[k].n));
    }
  }

  lemma PlaceFirst(m: Mode, z: seq<Byte>, from: nat, toks: seq<Token>)
    requires from <= |z| && Apart(m, z, toks) && toks != [] && from <= toks[0].off
    ensures Place(m, z, from, toks, 0) == toks[0].off - from
  {
  }

  lemma StandsLater(m: Mode, z: seq<Byte>, from: nat, toks: seq<Token>, k: nat, r: seq<Byte>, next: Byte)
    requires from <= |z| && Apart(m, z, toks) && 0 < k < |toks| && Apart(m, z, toks[1..]) && from <= toks[0].off
    requires IsToken(m, z, toks[0]) && toks[0].off + toks[0].n <= |z| && toks[0].off + toks[0].n <= toks[1].off
    requires StandsAt(Spliced(m, z, toks[0].off + toks[0].n, toks[1..]),
                      Place(m, z, toks[0].off + toks[0].n, toks[1..], k - 1), r, next)
    ensures StandsAt(Spliced(m, z, from, toks), Place(m, z, from, toks, k), r, next)
  {
    hide Replacement, Apart, IsToken, StandsAt, ByteAt, Spliced;
    var t := toks[0];
    SplicedHead(m, z, from, toks);
    Behind(z[from..t.off] + Replacement(m, z, t), Spliced(m, z, t.off + t.n, toks[1..]),
           Place(m, z, t.off + t.n, toks[1..], k - 1), r, next);
  }

  lemma SplicedHead(m: Mode, z: seq<Byte>, from: nat, toks: seq<Token>)
    requires from <= |z| && Apart(m, z, toks) && toks != [] && from <= toks[0].off
    ensures IsToken(m, z, toks[0]) && Apart(m, z, toks[1..]) && (|toks| > 1 ==> toks[0].off + toks[0].n <= toks[1].off)
    ensures toks[0].off + toks[0].n <= |z|
    ensures Spliced(m, z, from, toks) ==
            z[from..toks[0].off] + Replacement(m, z, toks[0]) + Spliced(m, z, toks[0].off + toks[0].n, toks[1..])
  {
    TokensApart(m, z, toks);
    hide Replacement, Apart, IsToken;
  }

  lemma StandsFirst(m: Mode, z: seq<Byte>, from: nat, toks: seq<Token>)
    requires from <= |z| && Apart(m, z, toks) && toks != [] && from <= toks[0].off && IsToken(m, z, toks[0])
    requires 1 < |toks| ==> toks[0].off + toks[0].n < toks[1].off <= |z|
    ensures StandsAt(Spliced(m, z, from, toks), toks[0].off - from, Replacement(m, z, toks[0]),
                     ByteAt(z, toks[0].off + toks[0].n))
  {
    hide Replacement, Apart, IsToken, StandsAt, ByteAt, Spliced;
    var t := toks[0];
    SplicedHead(m, z, from, toks);
    FirstByte(m, z, t.off + t.n, toks[1..]);
    InFront(z[from..t.off], Replacement(m, z, t), Spliced(m, z, t.off + t.n, toks[1..]));
  }

  lemma InFront(a: seq<Byte>, r: seq<Byte>, rest: seq<Byte>)
    ensures StandsAt(a + r + rest, |a|, r, ByteAt(rest, 0))
  {
  }

  lemma Behind(head: seq<Byte>, rest: seq<Byte>, p: nat, r: seq<Byte>, next: Byte)
    requires StandsAt(rest, p, r, next)
    ensures StandsAt(head + rest, |head| + p, r, next)
  {
    assert (head + rest)[|head| + p..|head| + p + |r|] == rest[p..p + |r|];
  }

  lemma FirstByte(m: Mode, z: seq<Byte>, from: nat, toks: seq<Token>)
    requires from <= |z| && Apart(m, z, toks) && (toks != [] ==> from < toks[0].off <= |z|)
    ensures ByteAt(Spliced(m, z, from, toks), 0) == ByteAt(z, from)
  {
    hide Replacement, Apart, IsToken;
  }

  lemma TokensApart(m: Mode, z: seq<Byte>, toks: seq<Token>)
    requires Apart(m, z, toks) && toks != []
    ensures IsToken(m, z, toks[0]) && toks[0].off + toks[0].n <= |z| && Apart(m, z, toks[1..])
    ensures forall i :: 0 <= i < |toks| ==> IsToken(m, z, toks[i]) && toks[i].off < toks[i].off + toks[i].n <= |z|
    ensures |toks| > 1 ==> toks[0].off + toks[0].n <= toks[1].off
  {
    hide IsString;
  }

  /** The quote around a replacement, and the text in it. */
  function QuoteOf(m: Mode): Byte { if m.Rename? then DOUBLE else SINGLE }

  function Meaning(m: Mode, z: seq<Byte>, t: Token): seq<Byte>
    requires IsToken(m, z, t)
  {
    match m
    case Rename(zNew, _) => zNew
    case FixQuotes => ReadQuoted(DOUBLE, TextOf(z, t), 1).text
  }

  /** A quoted replacement reads back in the new text as the new name, or as the string that was there: it ends where
      it was meant to end, because of the extra space before a quote. */
  lemma ReadsBack(m: Mode, z: seq<Byte>, toks: seq<Token>, k: nat)
    requires Apart(m, z, toks) && k < |toks| && (k + 1 < |toks| ==> toks[k].off + toks[k].n < toks[k + 1].off)
    requires m.Rename? && !m.bQuote ==> !IsIdChar(z[toks[k].off])
    ensures var out, p := Spliced(m, z, 0, toks), Place(m, z, 0, toks, k);
            var text, q := Meaning(m, z, toks[k]), QuoteOf(m);
            p < |out| && out[p] == q && ReadQuoted(q, out, p + 1) == Read(text, p + |Quoted(q, text)|)
  {
    hide *;
    TokensApart(m, z, toks);
    StandsThere(m, z, 0, toks, k);
    ReplacementMeans(m, z, toks[k]);
    ReadsThere(Spliced(m, z, 0, toks), Place(m, z, 0, toks, k), QuoteOf(m), Meaning(m, z, toks[k]),
               ByteAt(z, toks[k].off + toks[k].n),
               Replacement(m, z, toks[k]));
  }

  lemma ReplacementMeans(m: Mode, z: seq<Byte>, t: Token)
    requires IsToken(m, z, t) && (m.Rename? && !m.bQuote ==> t.off < |z| && !IsIdChar(z[t.off]))
    ensures var q := QuoteOf(m);
            q != SPACE && q != 0 &&
            Replacement(m, z, t) == Quoted(q, Meaning(m, z, t)) + if ByteAt(z, t.off + t.n) == q then [SPACE] else []
  {
  }

  /** Quoted text with a space behind it, where it needs one. */
  lemma ReadsThere(out: seq<Byte>, p: nat, q: Byte, text: seq<Byte>, next: Byte, r: seq<Byte>)
    requires q != SPACE && q != 0 && StandsAt(out, p, r, next)
    requires r == Quoted(q, text) + if next == q then [SPACE] else []
    ensures p < |out| && out[p] == q && ReadQuoted(q, out, p + 1) == Read(text, p + |Quoted(q, text)|)
  {
    hide *;
    QuotedShape(q, text, next, r);
    var n := |Doubled(q, text)|;
    StandingByte(out, p, r, next, 0);
    PieceOf(out, p, r, next, 1, n + 1);
    StandingByte(out, p, r, next, n + 1);
    StandingByte(out, p, r, next, n + 2);
    ReadWritten(q, text, out, p + 1);
  }

  lemma QuotedShape(q: Byte, text: seq<Byte>, next: Byte, r: seq<Byte>)
    requires r == Quoted(q, text) + if next == q then [SPACE] else []
    ensures var d := Doubled(q, text);
            |Quoted(q, text)| == |d| + 2 && |r| == (if next == q then |d| + 3 else |d| + 2) &&
            r[0] == q && r[1..|d| + 1] == d && r[|d| + 1] == q && (next == q ==> r[|d| + 2] == SPACE)
  {
    hide Doubled;
  }

  lemma StandingByte(out: seq<Byte>, p: nat, r: seq<Byte>, next: Byte, a: nat)
    requires StandsAt(out, p, r, next) && a <= |r|
    ensures p + |r| <= |out| && (a < |r| ==> out[p + a] == r[a])
    ensures a == |r| && p + a < |out| ==> out[p + a] == next
  {
    var x := out[p..p + |r|];
    if a < |r| { assert x[a] == out[p + a]; }
  }

  lemma PieceOf(out: seq<Byte>, p: nat, r: seq<Byte>, next: Byte, a: nat, b: nat)
    requires a <= b <= |r| && StandsAt(out, p, r, next)
    ensures p + b <= |out| && out[p + a..p + b] == r[a..b]
  {
    var x := out[p..p + |r|];
    forall i | 0 <= i < b - a
      ensures out[p + a..p + b][i] == r[a..b][i]
    {
      assert x[a + i] == out[p + (a + i)];
    }
  }

  // -------------------- the new text, without the replacements --------------------

  /** An identifier without quotes is replaced by the bare name. */
  predicate IsBare(m: Mode, z: seq<Byte>, t: Token) {
    m.Rename? && !m.bQuote && t.off < |z| && IsIdChar(z[t.off])
  }

  /** How many bytes stand for the token in the new text: the name, or a quoted text and a space before a quote. */
  function Width(m: Mode, z: seq<Byte>, t: Token): nat
    requires IsToken(m, z, t)
  {
    if IsBare(m, z, t) then |Meaning(m, z, t)|
    else |Quoted(QuoteOf(m), Meaning(m, z, t))| + if ByteAt(z, t.off + t.n) == QuoteOf(m) then 1 else 0
  }

  /** By how much the text grows before token `k`. */
  function Grown(m: Mode, z: seq<Byte>, toks: seq<Token>, k: nat): int
    requires Apart(m, z, toks) && k <= |toks|
    decreases k
  {
    if k == 0 then 0
    else
      TokensApart(m, z, toks);
      Width(m, z, toks[0]) - toks[0].n + Grown(m, z, toks[1..], k - 1)
  }

  /** At place `p` of the new text, the token reads as its meaning: the bare name stands there, or a quoted text that
      reads as it and ends in its place. */
  ghost predicate ReadsAs(m: Mode, z: seq<Byte>, t: Token, out: seq<Byte>, p: int)
    requires IsToken(m, z, t)
  {
    var text, q := Meaning(m, z, t), QuoteOf(m);
    0 <= p && p + Width(m, z, t) <= |out| &&
    if IsBare(m, z, t) then out[p..p + |text|] == text
    else out[p] == q && ReadQuoted(q, out, p + 1) == Read(text, p + |Quoted(q, text)|)
  }

  /** Token `k` stands where it stood, moved by the growth so far, and reads as its meaning, unless it is quoted and
      touches the next one; and the text up to the next token, or to the end, follows it unchanged. */
  ghost predicate TokenEdited(m: Mode, z: seq<Byte>, toks: seq<Token>, out: seq<Byte>, k: nat)
    requires Apart(m, z, toks) && k < |toks|
  {
    var t, p := toks[k], toks[k].off + Grown(m, z, toks, k);
    var behind, next := p + Width(m, z, t), if k + 1 < |toks| then toks[k + 1].off else |z|;
    var n := next - (t.off + t.n);
    0 <= p && 0 <= n && behind + n <= |out| && out[behind..behind + n] == z[next - n..next] &&
    (k + 1 == |toks| ==> behind + n == |out|) &&
    ((IsBare(m, z, t) || n > 0 || k + 1 == |toks|) ==> ReadsAs(m, z, t, out, p))
  }

  lemma ReplacementWidth(m: Mode, z: seq<Byte>, t: Token)
    requires IsToken(m, z, t)
    ensures |Replacement(m, z, t)| == Width(m, z, t) && (IsBare(m, z, t) ==> Replacement(m, z, t) == Meaning(m, z, t))
  {
  }

  lemma {:induction false} PlaceIs(m: Mode, z: seq<Byte>, from: nat, toks: seq<Token>, k: nat)
    requires from <= |z| && Apart(m, z, toks) && k < |toks| && from <= toks[0].off
    ensures Place(m, z, from, toks, k) == toks[k].off - from + Grown(m, z, toks, k)
    decreases k
  {
    hide *;
    GrownIs(m, z, toks, k);
    TokensApart(m, z, toks);
    if k == 0 {
      PlaceFirst(m, z, from, toks);
    } else {
      PlaceIs(m, z, toks[0].off + toks[0].n, toks[1..], k - 1);
      PlaceIsLater(m, z, from, toks, k);
    }
  }

  lemma PlaceIsLater(m: Mode, z: seq<Byte>, from: nat, toks: seq<Token>, k: nat)
    requires from <= |z| && Apart(m, z, toks) && 0 < k < |toks| && from <= toks[0].off && Apart(m, z, toks[1..])
    requires toks[0].off + toks[0].n <= |z| && toks[0].off + toks[0].n <= toks[1].off
    requires Place(m, z, toks[0].off + toks[0].n, toks[1..], k - 1) ==
             toks[k].off - toks[0].off - toks[0].n + Grown(m, z, toks[1..], k - 1)
    ensures Place(m, z, from, toks, k) == toks[k].off - from + Grown(m, z, toks, k)
  {
    hide *;
    GrownIs(m, z, toks, k);
    ReplacementWidth(m, z, toks[0]);
    PlaceLater(m, z, from, toks, k);
  }

  lemma GrownIs(m: Mode, z: seq<Byte>, toks: seq<Token>, k: nat)
    requires Apart(m, z, toks) && k < |toks|
    ensures k == 0 ==> Grown(m, z, toks, k) == 0
    ensures k > 0 ==> IsToken(m, z, toks[0]) && Apart(m, z, toks[1..]) &&
                      Grown(m, z, toks, k) == Width(m, z, toks[0]) - toks[0].n + Grown(m, z, toks[1..], k - 1)
  {
    TokensApart(m, z, toks);
    hide Width, Apart, IsToken;
  }

  /** Behind a replacement, the edited rest of the text follows. */
  lemma {:induction false} RestFollows(m: Mode, z: seq<Byte>, from: nat, toks: seq<Token>, k: nat)
    requires from <= |z| && Apart(m, z, toks) && k < |toks| && from <= toks[0].off && Apart(m, z, toks[k + 1..])
    requires IsToken(m, z, toks[k]) && toks[k].off + toks[k].n <= |z|
    requires k + 1 < |toks| ==> toks[k].off + toks[k].n <= toks[k + 1].off
    ensures var out, p := Spliced(m, z, from, toks), Place(m, z, from, toks, k) + |Replacement(m, z, toks[k])|;
            p <= |out| && out[p..] == Spliced(m, z, toks[k].off + toks[k].n, toks[k + 1..])
    decreases k
  {
    hide *;
    SplicedHead(m, z, from, toks);
    var t := toks[0];
    var head, rest := z[from..t.off] + Replacement(m, z, t), Spliced(m, z, t.off + t.n, toks[1..]);
    if k == 0 {
      PlaceFirst(m, z, from, toks);
      DropHead(head, rest, |head|);
    } else {
      assert toks[1..][k - 1] == toks[k] && toks[1..][k..] == toks[k + 1..];
      RestFollows(m, z, t.off + t.n, toks[1..], k - 1);
      PlaceLater(m, z, from, toks, k);
      DropHead(head, rest, |head| + Place(m, z, t.off + t.n, toks[1..], k - 1) + |Replacement(m, z, toks[k])|);
    }
  }

  lemma DropHead(head: seq<Byte>, rest: seq<Byte>, p: nat)
    requires |head| <= p <= |head| + |rest|
    ensures (head + rest)[p..] == rest[p - |head|..]
  {
  }

  lemma PlaceLater(m: Mode, z: seq<Byte>, from: nat, toks: seq<Token>, k: nat)
    requires from <= |z| && Apart(m, z, toks) && 0 < k < |toks| && Apart(m, z, toks[1..]) && from <= toks[0].off
    requires IsToken(m, z, toks[0]) && toks[0].off + toks[0].n <= |z| && toks[0].off + toks[0].n <= toks[1].off
    ensures Place(m, z, from, toks, k) ==
            toks[0].off - from + |Replacement(m, z, toks[0])| + Place(m, z, toks[0].off + toks[0].n, toks[1..], k - 1)
  {
    hide Replacement, Apart, IsToken;
  }

  /** The edited rest starts with the text up to the next token. */
  lemma RestStarts(m: Mode, z: seq<Byte>, from: nat, toks: seq<Token>)
    requires from <= |z| && Apart(m, z, toks) && (toks != [] ==> from <= toks[0].off <= |z|)
    ensures var out, next := Spliced(m, z, from, toks), if toks != [] then toks[0].off else |z|;
            next - from <= |out| && out[..next - from] == z[from..next] && (toks == [] ==> |out| == next - from)
  {
    hide Replacement, Apart, IsToken;
  }

  /** The tokens behind token `k`. */
  lemma ApartBehind(m: Mode, z: seq<Byte>, toks: seq<Token>, k: nat)
    requires Apart(m, z, toks) && k < |toks|
    ensures Apart(m, z, toks[k + 1..]) && IsToken(m, z, toks[k]) && toks[k].off + toks[k].n <= |z|
    ensures k + 1 < |toks| ==> toks[k].off + toks[k].n <= toks[k + 1].off <= |z| && toks[k + 1..][0] == toks[k + 1]
  {
    ApartFrom(m, z, toks, k + 1);
    hide IsString;
    assert k + 1 < |toks| ==> IsToken(m, z, toks[k + 1]);
  }

  /** The replacement of every token stands at its place. */
  lemma {:induction false} ReplacementThere(m: Mode, z: seq<Byte>, from: nat, toks: seq<Token>, k: nat)
    requires from <= |z| && Apart(m, z, toks) && k < |toks| && from <= toks[0].off && IsToken(m, z, toks[k])
    ensures var out, p, r := Spliced(m, z, from, toks), Place(m, z, from, toks, k), Replacement(m, z, toks[k]);
            p + |r| <= |out| && out[p..p + |r|] == r
    decreases k
  {
    hide *;
    SplicedHead(m, z, from, toks);
    var t := toks[0];
    var head, rest := z[from..t.off] + Replacement(m, z, t), Spliced(m, z, t.off + t.n, toks[1..]);
    if k == 0 {
      PlaceFirst(m, z, from, toks);
      SliceBefore(z[from..t.off], Replacement(m, z, t), rest);
    } else {
      var q, r := Place(m, z, t.off + t.n, toks[1..], k - 1), Replacement(m, z, toks[k]);
      ReplacementThere(m, z, t.off + t.n, toks[1..], k - 1);
      PlaceLater(m, z, from, toks, k);
      SliceBehind(head, rest, q, |r|);
    }
  }

  lemma SliceBefore(a: seq<Byte>, b: seq<Byte>, rest: seq<Byte>)
    ensures (a + b + rest)[|a|..|a| + |b|] == b
  {
  }

  lemma SliceBehind(head: seq<Byte>, rest: seq<Byte>, q: nat, n: nat)
    requires q + n <= |rest|
    ensures (head + rest)[|head| + q..|head| + q + n] == rest[q..q + n]
  {
  }

  lemma BareReads(m: Mode, z: seq<Byte>, toks: seq<Token>, k: nat)
    requires Apart(m, z, toks) && k < |toks| && IsToken(m, z, toks[k]) && IsBare(m, z, toks[k])
    ensures var out, p, text := Spliced(m, z, 0, toks), Place(m, z, 0, toks, k), Meaning(m, z, toks[k]);
            p + |text| <= |out| && out[p..p + |text|] == text
  {
    ReplacementThere(m, z, 0, toks, k);
    ReplacementWidth(m, z, toks[k]);
    hide Apart, IsToken, Replacement, Spliced, Place, Meaning, Width;
  }

  /** What the edit does to every token, for all modes. */
  lemma EveryTokenEdited(m: Mode, z: seq<Byte>, toks: seq<Token>, k: nat)
    requires Apart(m, z, toks) && k < |toks|
    ensures TokenEdited(m, z, toks, Spliced(m, z, 0, toks), k)
  {
    hide *;
    var out := Spliced(m, z, 0, toks);
    ApartBehind(m, z, toks, k);
    var t := toks[k];
    PlaceIs(m, z, 0, toks, k);
    ReplacementWidth(m, z, t);
    RestFollows(m, z, 0, toks, k);
    RestStarts(m, z, t.off + t.n, toks[k + 1..]);
    if IsBare(m, z, t) {
      BareReads(m, z, toks, k);
      ReadsAsIs(m, z, t, out, Place(m, z, 0, toks, k));
    } else if k + 1 == |toks| || t.off + t.n < toks[k + 1].off {
      NotBare(m, z, toks, k);
      ReadsBack(m, z, toks, k);
      ReadsAsIs(m, z, t, out, Place(m, z, 0, toks, k));
    }
    EditedIs(m, z, toks, out, k, Place(m, z, 0, toks, k));
  }

  lemma NotBare(m: Mode, z: seq<Byte>, toks: seq<Token>, k: nat)
    requires Apart(m, z, toks) && k < |toks| && IsToken(m, z, toks[k]) && !IsBare(m, z, toks[k])
    ensures toks[k].off < |z| && (m.Rename? && !m.bQuote ==> !IsIdChar(z[toks[k].off]))
  {
  }

  lemma ReadsAsIs(m: Mode, z: seq<Byte>, t: Token, out: seq<Byte>, p: nat)
    requires IsToken(m, z, t) && p + Width(m, z, t) <= |out|
    requires var text, q := Meaning(m, z, t), QuoteOf(m);
             if IsBare(m, z, t) then p + |text| <= |out| && out[p..p + |text|] == text
             else p < |out| && out[p] == q && ReadQuoted(q, out, p + 1) == Read(text, p + |Quoted(q, text)|)
    ensures ReadsAs(m, z, t, out, p)
  {
    hide IsToken, ReadQuoted, Meaning, IsBare;
  }

  lemma EditedIs(m: Mode, z: seq<Byte>, toks: seq<Token>, out: seq<Byte>, k: nat, p: nat)
    requires Apart(m, z, toks) && k < |toks| && IsToken(m, z, toks[k]) && toks[k].off + toks[k].n <= |z|
    requires p == toks[k].off + Grown(m, z, toks, k) && p + Width(m, z, toks[k]) <= |out|
    requires var from, next := toks[k].off + toks[k].n, if k + 1 < |toks| then toks[k + 1].off else |z|;
             var rest := out[p + Width(m, z, toks[k])..];
             from <= next <= |z| && next - from <= |rest| && rest[..next - from] == z[from..next] &&
             (k + 1 == |toks| ==> |rest| == next - from)
    requires IsBare(m, z, toks[k]) || k + 1 == |toks| || toks[k].off + toks[k].n < toks[k + 1].off ==>
               ReadsAs(m, z, toks[k], out, p)
    ensures TokenEdited(m, z, toks, out, k)
  {
    hide Apart, IsToken, ReadsAs, Grown, Width;
  }

  // -------------------- how long the new text gets --------------------

  /** The length of the quoted new name. */
  function QuotedLength(m: Mode): nat {
    match m
    case Rename(zNew, _) => |Quoted(DOUBLE, zNew)|
    case FixQuotes => 0
  }

  /** A token grows by no more than the quoted name, because it has at least one byte itself; and a string
      by no more than itself less one. */
  lemma Growth(m: Mode, z: seq<Byte>, t: Token)
    requires IsToken(m, z, t)
    ensures m.Rename? ==> |Replacement(m, z, t)| - t.n <= QuotedLength(m)
    ensures m.FixQuotes? ==> |Replacement(m, z, t)| - t.n <= t.n - 1
  {
  }

  // -------------------- the edit --------------------

  /** sqlite3Dequote(), on a buffer that holds a quoted text. */
  method Dequote(z: array<Byte>, n: nat) returns (j: nat)
    requires 0 < n < z.Length && z[n] == 0 && z[0] == DOUBLE
    requires ReadQuoted(DOUBLE, z[..n], 1).Read? && ReadQuoted(DOUBLE, z[..n], 1).end == n
    modifies z
    ensures j < n && z[j] == 0 && z[..j] == ReadQuoted(DOUBLE, old(z[..n]), 1).text
  {
    ghost var s := z[..n];
    var quote := z[0];
    var i := 1;
    j := 0;
    assert Prepend([], ReadQuoted(DOUBLE, s, 1)) == ReadQuoted(DOUBLE, s, 1);
    hide ReadQuoted, Prepend;
    while true
      invariant 1 <= i < n && j < i && z[n] == 0 && forall k :: i <= k < n ==> z[k] == s[k]
      invariant ReadQuoted(DOUBLE, s, 1) == Prepend(z[..j], ReadQuoted(DOUBLE, s, i))
      decreases n - i
    {
      ghost var before := z[..j];
      ReadStep(DOUBLE, s, before, i);
      if z[i] == quote {
        if z[i + 1] == quote {
          z[j] := quote;
          j := j + 1;
          i := i + 1;
        } else {
          break;
        }
      } else {
        z[j] := z[i];
        j := j + 1;
      }
      assert z[..j] == before + [z[j - 1]];
      i := i + 1;
    }
    z[j] := 0;
  }

  /** One turn of reading. */
  lemma ReadStep(q: Byte, s: seq<Byte>, text: seq<Byte>, i: nat)
    requires i < |s| && Prepend(text, ReadQuoted(q, s, i)).Read? && Prepend(text, ReadQuoted(q, s, i)).end == |s|
    ensures s[i] != q ==>
              i + 1 < |s| && Prepend(text, ReadQuoted(q, s, i)) == Prepend(text + [s[i]], ReadQuoted(q, s, i + 1))
    ensures s[i] == q && i + 1 < |s| && s[i + 1] == q ==>
              i + 2 < |s| && Prepend(text, ReadQuoted(q, s, i)) == Prepend(text + [q], ReadQuoted(q, s, i + 2))
    ensures s[i] == q && !(i + 1 < |s| && s[i + 1] == q) ==>
              i + 1 == |s| && Prepend(text, ReadQuoted(q, s, i)) == Read(text, |s|)
  {
    var c := if s[i] != q then [s[i]] else [q];
    var r := ReadQuoted(q, s, if s[i] != q then i + 1 else i + 2);
    assert r.Read? ==> text + (c + r.text) == text + c + r.text;
    assert text + [] == text;
  }

  /** memmove() and memcpy() of a replacement over a token: the text behind it moves first. */
  method ReplaceAt(zOut: array<Byte>, nOut: nat, t: Token, zReplace: seq<Byte>, ghost s: seq<Byte>) returns (nOut1: nat)
    requires t.off + t.n <= nOut < zOut.Length && nOut + |zReplace| - t.n < zOut.Length && zOut[nOut] == 0
    requires zOut[..nOut] == s
    modifies zOut
    ensures nOut1 == nOut - t.n + |zReplace| && zOut[nOut1] == 0
    ensures zOut[..nOut1] == s[..t.off] + zReplace + s[t.off + t.n..]
  {
    assert forall k :: 0 <= k < nOut ==> zOut[k] == s[k];
    nOut1 := nOut;
    var iOff, nReplace := t.off, |zReplace|;
    if t.n != nReplace {
      var len := nOut - (iOff + t.n);
      var d := nReplace - t.n;
      forall i | iOff + nReplace <= i < iOff + nReplace + len {
        zOut[i] := zOut[i - d];
      }
      nOut1 := nOut + d;
      zOut[nOut1] := 0;
    }
    forall i | iOff <= i < iOff + nReplace {
      zOut[i] := zReplace[i - iOff];
    }
    ghost var r := s[..t.off] + zReplace + s[t.off + t.n..];
    forall i | 0 <= i < nOut1
      ensures zOut[i] == r[i]
    {
    }
    assert |r| == nOut1;
  }

  class RenameCtx {
    var pList: seq<Token>
    var nList: nat

    /** renameColumnTokenNext(): takes the token that stands last in the text out of the list. */
    method TokenNext() returns (best: Token)
      requires pList != []
      modifies this`pList
      ensures best in old(pList) && forall t :: t in old(pList) ==> t.off <= best.off
      ensures multiset(old(pList)) == multiset(pList) + multiset{best} && |pList| == |old(pList)| - 1
    {
      var k, i := 0, 1;
      while i < |pList|
        invariant 0 <= k < i <= |pList| && forall j :: 0 <= j < i ==> pList[j].off <= pList[k].off
      {
        if pList[i].off > pList[k].off { k := i; }
        i := i + 1;
      }
      best := pList[k];
      assert pList == pList[..k] + [best] + pList[k + 1..];
      pList := pList[..k] + pList[k + 1..];
    }
  }

  /** The tokens that are left are the first ones, so that the last of them comes next. */
  lemma LastComesNext(m: Mode, z: seq<Byte>, toks: seq<Token>, list: seq<Token>, best: Token)
    requires Apart(m, z, toks) && toks != [] && multiset(list) == multiset(toks)
    requires best in list && forall t :: t in list ==> t.off <= best.off
    ensures best == toks[|toks| - 1]
  {
    hide IsString;
    assert best in multiset(toks) && toks[|toks| - 1] in multiset(list);
    var i :| 0 <= i < |toks| && toks[i] == best;
    BeforeLast(m, z, toks, i);
  }

  lemma BeforeLast(m: Mode, z: seq<Byte>, toks: seq<Token>, i: nat)
    requires Apart(m, z, toks) && i < |toks|
    ensures i == |toks| - 1 || toks[i].off < toks[|toks| - 1].off
  {
    assert IsToken(m, z, toks[i]);
    hide IsString;
  }

  lemma OneLess(list: seq<Token>, rest: seq<Token>, toks: seq<Token>, m: nat, best: Token)
    requires 0 < m <= |toks| && best == toks[m - 1] && multiset(list) == multiset(toks[..m])
    requires multiset(list) == multiset(rest) + multiset{best}
    ensures multiset(rest) == multiset(toks[..m - 1]) && toks[m - 1..] == [best] + toks[m..]
  {
    assert toks[..m] == toks[..m - 1] + [best];
    assert multiset(rest) == multiset(list) - multiset{best};
    assert multiset(toks[..m - 1]) == multiset(toks[..m]) - multiset{best};
  }

  lemma ApartFrom(m: Mode, z: seq<Byte>, toks: seq<Token>, k: nat)
    requires Apart(m, z, toks) && k <= |toks|
    ensures Apart(m, z, toks[..k]) && Apart(m, z, toks[k..])
  {
    hide IsToken;
  }

  /** The memory for the new text: the old length and a quoted name for each token, or twice the old length. */
  function Capacity(m: Mode, nSql: nat, nList: nat): nat {
    match m
    case Rename(_, _) => nSql + nList * QuotedLength(m) + 1
    case FixQuotes => 2 * nSql + 1
  }

  /** While `m` tokens are left and the text starts to differ at `at`, there is room for all that follows. */
  ghost predicate HasRoom(mode: Mode, nOut: nat, nSql: nat, nList: nat, m: nat, at: nat) {
    match mode
    case Rename(_, _) => nOut + m * QuotedLength(mode) <= nSql + nList * QuotedLength(mode)
    case FixQuotes => nOut + at <= 2 * nSql
  }

  lemma RoomForNext(mode: Mode, z: seq<Byte>, t: Token, nOut: nat, nList: nat, m: nat, at: nat)
    requires IsToken(mode, z, t) && t.off + t.n <= at <= |z| && 0 < m <= nList && t.n <= nOut
    requires HasRoom(mode, nOut, |z|, nList, m, at)
    ensures HasRoom(mode, nOut + |Replacement(mode, z, t)| - t.n, |z|, nList, m - 1, t.off)
    ensures nOut + |Replacement(mode, z, t)| - t.n < Capacity(mode, |z|, nList)
  {
    Growth(mode, z, t);
    var q := QuotedLength(mode);
    assert m * q == (m - 1) * q + q;
    assert 0 <= (m - 1) * q;
  }

  /** The bytes before the first zero byte. */
  ghost predicate NoZero(s: seq<Byte>) {
    forall i :: 0 <= i < |s| ==> s[i] != 0
  }

  lemma {:induction false} DoubledNoZero(q: Byte, s: seq<Byte>)
    requires q != 0 && NoZero(s)
    ensures NoZero(Doubled(q, s))
  {
    if s != [] { DoubledNoZero(q, s[1..]); }
  }

  lemma {:induction false} ReadNoZero(q: Byte, s: seq<Byte>, i: nat)
    requires q != 0 && NoZero(s) && ReadQuoted(q, s, i).Read?
    ensures NoZero(ReadQuoted(q, s, i).text)
    decreases |s| - i
  {
    if s[i] != q {
      ReadNoZero(q, s, i + 1);
    } else if i + 1 < |s| && s[i + 1] == q {
      ReadNoZero(q, s, i + 2);
    }
  }

  lemma ReplacementNoZero(m: Mode, z: seq<Byte>, t: Token)
    requires IsToken(m, z, t) && NoZero(z) && (m.Rename? ==> NoZero(m.zNew))
    ensures NoZero(Replacement(m, z, t))
  {
    match m
    case Rename(zNew, _) => DoubledNoZero(DOUBLE, zNew);
    case FixQuotes =>
      ReadNoZero(DOUBLE, TextOf(z, t), 1);
      DoubledNoZero(SINGLE, ReadQuoted(DOUBLE, TextOf(z, t), 1).text);
  }

  lemma {:induction false} SplicedNoZero(m: Mode, z: seq<Byte>, from: nat, toks: seq<Token>)
    requires from <= |z| && Apart(m, z, toks) && (toks != [] ==> from <= toks[0].off)
    requires NoZero(z) && (m.Rename? ==> NoZero(m.zNew))
    ensures NoZero(Spliced(m, z, from, toks))
    decreases |toks|
  {
    if toks == [] {
      hide Replacement, Apart;
    } else {
      hide *;
      var t := toks[0];
      SplicedHead(m, z, from, toks);
      ReplacementNoZero(m, z, t);
      SplicedNoZero(m, z, t.off + t.n, toks[1..]);
      NoZeroJoined(z, from, t.off, Replacement(m, z, t), Spliced(m, z, t.off + t.n, toks[1..]));
    }
  }

  lemma NoZeroJoined(z: seq<Byte>, from: nat, to: nat, r: seq<Byte>, rest: seq<Byte>)
    requires from <= to <= |z| && NoZero(z) && NoZero(r) && NoZero(rest)
    ensures NoZero(z[from..to] + r + rest)
  {
  }

  /** The text of a buffer, up to its first zero byte. */
  method TextUpToZero(zOut: array<Byte>, ghost nOut: nat) returns (text: seq<Byte>)
    requires nOut < zOut.Length && zOut[nOut] == 0 && NoZero(zOut[..nOut])
    ensures text == zOut[..nOut]
  {
    assert forall k :: 0 <= k < nOut ==> zOut[k] == zOut[..nOut][k];
    var i := 0;
    while zOut[i] != 0
      invariant i <= nOut
      decreases nOut - i
    {
      i := i + 1;
    }
    text := zOut[..i];
  }

  /** The text that goes in the place of a token. `zBuf1` has room for the token and a zero byte. */
  method NextReplacement(mode: Mode, zSql: seq<Byte>, t: Token, zBuf1: array<Byte>) returns (zReplace: seq<Byte>)
    requires IsToken(mode, zSql, t) && (mode.FixQuotes? ==> 2 * |zSql| < zBuf1.Length)
    modifies zBuf1
    ensures zReplace == Replacement(mode, zSql, t)
    ensures mode.FixQuotes? ==> |zReplace| < 2 * |zSql|
  {
    match mode
    case Rename(zNew, bQuote) =>
      if !bQuote && IsIdChar(zSql[t.off]) {
        zReplace := zNew;
      } else {
        zReplace := Quoted(DOUBLE, zNew);
        if ByteAt(zSql, t.off + t.n) == DOUBLE { zReplace := zReplace + [SPACE]; }
      }
    case FixQuotes =>
      Growth(mode, zSql, t);
      ghost var text := TextOf(zSql, t);
      forall i | 0 <= i < t.n { zBuf1[i] := zSql[t.off + i]; }
      zBuf1[t.n] := 0;
      assert zBuf1[..t.n] == text;
      var j := Dequote(zBuf1, t.n);
      zReplace := Quoted(SINGLE, zBuf1[..j]) + if ByteAt(zSql, t.off + t.n) == SINGLE then [SPACE] else [];
  }

  /** One turn: the last token of the list is replaced in the buffer. */
  method EditLast(ctx: RenameCtx, zSql: seq<Byte>, mode: Mode, ghost toks: seq<Token>, ghost m: nat, ghost at: nat,
                  zOut: array<Byte>, zBuf1: array<Byte>, nOut: nat) returns (nOut1: nat)
    requires Apart(mode, zSql, toks) && 0 < m <= |toks| && Apart(mode, zSql, toks[m..])
    requires |ctx.pList| == m <= ctx.nList && multiset(ctx.pList) == multiset(toks[..m])
    requires at == (if m < |toks| then toks[m].off else |zSql|) <= |zSql|
    requires zOut.Length == Capacity(mode, |zSql|, ctx.nList) && zOut != zBuf1 && zBuf1.Length == 2 * |zSql| + 1
    requires nOut < zOut.Length && zOut[nOut] == 0 && zOut[..nOut] == Spliced(mode, zSql, 0, toks[m..])
    requires HasRoom(mode, nOut, |zSql|, ctx.nList, m, at)
    modifies ctx`pList, zOut, zBuf1
    ensures |ctx.pList| == m - 1 && multiset(ctx.pList) == multiset(toks[..m - 1]) && Apart(mode, zSql, toks[m - 1..])
    ensures toks[m - 1].off <= |zSql| && HasRoom(mode, nOut1, |zSql|, ctx.nList, m - 1, toks[m - 1].off)
    ensures nOut1 < zOut.Length && zOut[nOut1] == 0 && zOut[..nOut1] == Spliced(mode, zSql, 0, toks[m - 1..])
  {
    ApartFrom(mode, zSql, toks, m);
    ApartFrom(mode, zSql, toks, m - 1);
    hide Replacement, IsToken, Capacity, HasRoom, Spliced, QuotedLength, Apart;
    ghost var list := ctx.pList;
    var best := ctx.TokenNext();
    LastComesNext(mode, zSql, toks[..m], list, best);
    OneLess(list, ctx.pList, toks, m, best);
    TokensBehind(mode, zSql, best, toks[m..]);
    SplicedBefore(mode, zSql, best, toks[m..]);
    var zReplace := NextReplacement(mode, zSql, best, zBuf1);
    RoomForNext(mode, zSql, best, nOut, ctx.nList, m, at);
    nOut1 := ReplaceAt(zOut, nOut, best, zReplace, Spliced(mode, zSql, 0, toks[m..]));
  }

  /** renameEditSql(): editing from right to left in one buffer gives the text spliced from left to right. `toks` is
      the list in the order of the text. */
  method RenameEditSql(ctx: RenameCtx, zSql: seq<Byte>, mode: Mode, ghost toks: seq<Token>) returns (result: seq<Byte>)
    requires zSql != [] && NoZero(zSql) && (mode.Rename? ==> NoZero(mode.zNew))
    requires Apart(mode, zSql, toks) && multiset(ctx.pList) == multiset(toks) && ctx.nList == |ctx.pList|
    modifies ctx`pList
    ensures result == Spliced(mode, zSql, 0, toks) && ctx.pList == []
    ensures if toks == [] then result == zSql else StartsAlike(result, zSql, toks[0].off)
    ensures forall k :: 0 <= k < |toks| ==> TokenEdited(mode, zSql, toks, result, k)
    ensures |result| < Capacity(mode, |zSql|, ctx.nList)
  {
    hide *;
    var nSql := |zSql|;
    RoomAtFirst(mode, nSql, ctx.nList);
    var zOut := new Byte[Capacity(mode, nSql, ctx.nList)](_ => 0);
    var zBuf1 := new Byte[2 * nSql + 1](_ => 0);
    var nOut: nat := nSql;
    forall i | 0 <= i < nSql { zOut[i] := zSql[i]; }
    ghost var m: nat, at: nat := |toks|, nSql;
    assert |ctx.pList| == |toks| by { assert |multiset(ctx.pList)| == |multiset(toks)|; }
    assert toks[..m] == toks && toks[m..] == [] && zOut[..nSql] == zSql;
    SplicedNone(mode, zSql);
    while ctx.pList != []
      invariant m <= |toks| && |ctx.pList| == m && multiset(ctx.pList) == multiset(toks[..m])
      invariant at == (if m < |toks| then toks[m].off else nSql) <= nSql
      invariant Apart(mode, zSql, toks[m..])
      invariant nOut < zOut.Length && zOut[nOut] == 0 && zOut[..nOut] == Spliced(mode, zSql, 0, toks[m..])
      invariant HasRoom(mode, nOut, nSql, ctx.nList, m, at)
      decreases m
    {
      nOut := EditLast(ctx, zSql, mode, toks, m, at, zOut, zBuf1, nOut);
      m, at := m - 1, toks[m - 1].off;
    }
    assert toks[0..] == toks;
    SplicedNoZero(mode, zSql, 0, toks);
    RoomAtEnd(mode, nOut, nSql, ctx.nList, at);
    result := TextUpToZero(zOut, nOut);
    forall k | 0 <= k < |toks|
      ensures TokenEdited(mode, zSql, toks, result, k)
    {
      EveryTokenEdited(mode, zSql, toks, k);
    }
    TextStarts(mode, zSql, toks);
  }

  /** The texts agree up to an offset. */
  predicate StartsAlike(a: seq<Byte>, b: seq<Byte>, n: nat) {
    n <= |a| && n <= |b| && a[..n] == b[..n]
  }

  lemma TextStarts(mode: Mode, z: seq<Byte>, toks: seq<Token>)
    requires Apart(mode, z, toks)
    ensures if toks == [] then Spliced(mode, z, 0, toks) == z
            else StartsAlike(Spliced(mode, z, 0, toks), z, toks[0].off)
  {
    if toks != [] { TokensApart(mode, z, toks); }
    RestStarts(mode, z, 0, toks);
  }

  lemma SplicedNone(mode: Mode, z: seq<Byte>)
    ensures Apart(mode, z, []) && Spliced(mode, z, 0, []) == z
  {
  }

  lemma RoomAtFirst(mode: Mode, nSql: nat, nList: nat)
    ensures HasRoom(mode, nSql, nSql, nList, nList, nSql) && nSql < Capacity(mode, nSql, nList)
  {
    assert nList * QuotedLength(mode) >= 0;
  }

  lemma RoomAtEnd(mode: Mode, nOut: nat, nSql: nat, nList: nat, at: nat)
    requires HasRoom(mode, nOut, nSql, nList, 0, at)
    ensures nOut < Capacity(mode, nSql, nList)
  {
  }
}
