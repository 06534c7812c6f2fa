/** Entity encoding of Markdown text (the character entities of section 5.3.2 of HTML 4.01). */
module MarkdownEntities {
  import Text
  import opened Decimals

  datatype Flags = Flags(amps: bool, doubleAmps: bool, angles: bool, quotes: bool)

  /** The flags of code blocks and code spans. */
  const CODE := Flags(false, true, true, true)

  // ---- Ampersands that the plain flag leaves alone ----

  predicate IsHexDigit(c: char) {
    IsDigit(c) || 'a' <= c <= 'f' || 'A' <= c <= 'F'
  }

  /** The text starts with a decimal entity of `n` digits. */
  predicate DecimalEntity(s: string, n: nat) {
    n + 3 <= |s| && "&#" <= s && s[n + 2] == ';' && forall i | 2 <= i < n + 2 :: IsDigit(s[i])
  }

  predicate HexEntity(s: string, n: nat) {
    && n + 4 <= |s| && "&#" <= s && s[2] in {'x', 'X'} && s[n + 3] == ';'
    && forall i | 3 <= i < n + 3 :: IsHexDigit(s[i])
  }

  predicate NumericEntity(s: string) {
    || DecimalEntity(s, 1) || DecimalEntity(s, 2) || DecimalEntity(s, 3)
    || HexEntity(s, 1) || HexEntity(s, 2)
  }

  /** Somewhere in the text there is a numeric entity of one to three decimal or one or two hexadecimal digits. */
  predicate HasNumericEntity(s: string) {
    s != "" && (NumericEntity(s) || HasNumericEntity(s[1..]))
  }

  /** Some later line starts with `&amp;`; the anchor of the expression matches behind every line break. */
  predicate LineStartsWithAmp(s: string) {
    s != "" && ((s[0] in {'\n', '\r', '\U{0C}'} && "&amp;" <= s[1..]) || LineStartsWithAmp(s[1..]))
  }

  /** The search from an ampersand on: only its first alternative is anchored. */
  predicate Ignored(s: string) {
    "&amp;" <= s || LineStartsWithAmp(s) || HasNumericEntity(s)
  }

  // ---- Encoding ----

  /** What the first character of the text becomes; `left` if an ampersand there is left alone. */
  function HeadAs(s: string, f: Flags, left: bool): string
    requires s != ""
  {
    if s[0] == '&' && f.amps then (if left then "&" else "&amp;")
    else if s[0] == '&' && f.doubleAmps then "&amp;"
    else if s[0] == '<' && f.angles then "&lt;"
    else if s[0] == '>' && f.angles then "&gt;"
    else if s[0] == '"' && f.quotes then "&quot;"
    else [s[0]]
  }

  function EncodeHead(s: string, f: Flags): string
    requires s != ""
  {
    HeadAs(s, f, Ignored(s))
  }

  function Encode(s: string, f: Flags): string {
    if s == "" then "" else EncodeHead(s, f) + Encode(s[1..], f)
  }

  /** `encodeString`. */
  method EncodeString(src: string, f: Flags) returns (tgt: string)
    ensures tgt == Encode(src, f)
  {
    tgt := "";
    var i := 0;
    while i < |src|
      invariant i <= |src| && Encode(src, f) == tgt + Encode(src[i..], f)
    {
      var c, here, next := src[i], src[i..], i + 1;
      var piece;
      if c == '&' && f.amps {
        piece := if Ignored(here) then [c] else "&amp;";
      } else if c == '&' && f.doubleAmps {
        piece := "&amp;";
      } else if c == '<' && f.angles {
        piece := "&lt;";
      } else if c == '>' && f.angles {
        piece := "&gt;";
      } else if c == '"' && f.quotes {
        piece := "&quot;";
      } else {
        piece := [c];
      }
      assert here[1..] == src[next..];
      Text.Append(tgt, piece, Encode(src[next..], f));
      tgt := tgt + piece;
      i := next;
    }
  }

  /** The entity a text starts with, and the character it stands for. */
  function EntityAt(s: string): (string, char) {
    if "&amp;" <= s then ("&amp;", '&')
    else if "&lt;" <= s then ("&lt;", '<')
    else if "&gt;" <= s then ("&gt;", '>')
    else if "&quot;" <= s then ("&quot;", '"')
    else ("", ' ')
  }

  /** Reading entities back, as a browser shows them. */
  function Decode(s: string): string
    decreases |s|
  {
    if s == "" then ""
    else
      var (entity, c) := EntityAt(s);
      if entity != "" then [c] + Decode(s[|entity|..]) else [s[0]] + Decode(s[1..])
  }

  /** An encoded character is recognised in front of any text. */
  lemma DecodeOne(s: string, rest: string)
    requires s != ""
    ensures Decode(EncodeHead(s, CODE) + rest) == [s[0]] + Decode(rest)
  {
    var e := EncodeHead(s, CODE);
    if s[0] in {'&', '<', '>', '"'} {
      EntityFront(e, s[0], rest);
    } else {
      assert (e + rest)[0] == s[0] && (e + rest)[1..] == rest;
    }
  }

  /** An entity is recognised in front of any text. */
  lemma EntityFront(e: string, c: char, rest: string)
    requires (e, c) in {("&amp;", '&'), ("&lt;", '<'), ("&gt;", '>'), ("&quot;", '"')}
    ensures EntityAt(e + rest) == (e, c) && Decode(e + rest) == [c] + Decode(rest)
  {
    var t := e + rest;
    assert e <= t && t[1] == e[1] && t[|e|..] == rest;
  }

  /** Encoding code text is reversible, for every text. */
  lemma {:induction false} DecodeEncoded(s: string)
    ensures Decode(Encode(s, CODE)) == s
  {
    if s != "" {
      DecodeOne(s, Encode(s[1..], CODE));
      DecodeEncoded(s[1..]);
      assert s == [s[0]] + s[1..];
    }
  }

  /** No markup character is left raw, and every ampersand starts one of the four entities. */
  ghost predicate Safe(s: string) {
    forall i | 0 <= i < |s| :: s[i] !in {'<', '>', '"'} && (s[i] == '&' ==> EntityAt(s[i..]).0 != "")
  }

  lemma {:induction false} EncodedIsSafe(s: string)
    ensures Safe(Encode(s, CODE))
  {
    if s != "" {
      EncodedIsSafe(s[1..]);
      SafeMore(EncodeHead(s, CODE), Encode(s[1..], CODE), s);
    }
  }

  lemma SafeMore(e: string, r: string, s: string)
    requires s != "" && e == EncodeHead(s, CODE) && Safe(r)
    ensures Safe(e + r)
  {
    forall i | 0 <= i < |e + r|
      ensures (e + r)[i] !in {'<', '>', '"'} && ((e + r)[i] == '&' ==> EntityAt((e + r)[i..]).0 != "")
    {
      if i >= |e| {
        assert (e + r)[i] == r[i - |e|] && (e + r)[i..] == r[i - |e|..];
      } else if i == 0 {
        assert e <= (e + r)[0..];
      } else {
        assert e[i] != '&';
      }
    }
  }

  // ---- The plain ampersand flag ----

  /** The text holds what the search behind an ampersand looks for. */
  predicate HoldsEntity(s: string) {
    s != "" && ("&amp;" <= s || NumericEntity(s) || HoldsEntity(s[1..]))
  }

  lemma {:induction false} HeldEntity(s: string)
    ensures HasNumericEntity(s) || LineStartsWithAmp(s) ==> HoldsEntity(s)
  {
    if s != "" {
      HeldEntity(s[1..]);
    }
  }

  /** With the plain flag as many characters are written as with the other one, or fewer. */
  lemma {:induction false} PlainIsShorter(s: string, f: Flags)
    requires f.amps
    ensures |Encode(s, f)| <= |Encode(s, f.(amps := false, doubleAmps := true))|
    ensures HoldsEntity(s) ==> |Encode(s, f)| < |Encode(s, f.(amps := false, doubleAmps := true))|
    ensures !HoldsEntity(s) ==> Encode(s, f) == Encode(s, f.(amps := false, doubleAmps := true))
  {
    if s != "" {
      PlainIsShorter(s[1..], f);
      HeldEntity(s);
    }
  }

  /**
   The plain flag encodes every ampersand exactly if the text holds neither `&amp;` nor a numeric entity; one
   of these is enough to leave some ampersand raw.
   */
  lemma PlainExactly(s: string, f: Flags)
    requires f.amps
    ensures Encode(s, f) == Encode(s, f.(amps := false, doubleAmps := true)) <==> !HoldsEntity(s)
  {
    PlainIsShorter(s, f);
  }

  // ---- What the plain flag is meant to do ----

  predicate StartsEntity(s: string) {
    "&amp;" <= s || NumericEntity(s)
  }

  /** The encoding if only ampersands that start `&amp;` or a numeric entity were left alone. */
  function Meant(s: string, f: Flags): string {
    if s == "" then "" else HeadAs(s, f, StartsEntity(s)) + Meant(s[1..], f)
  }

  /** Some ampersand starts no entity, but a later line starts with `&amp;` or a numeric entity comes later. */
  predicate Misread(s: string) {
    s != "" && ((s[0] == '&' && !StartsEntity(s) && (LineStartsWithAmp(s) || HasNumericEntity(s))) || Misread(s[1..]))
  }

  lemma {:induction false} MeantIsLonger(s: string, f: Flags)
    requires f.amps
    ensures |Encode(s, f)| <= |Meant(s, f)|
    ensures Misread(s) ==> |Encode(s, f)| < |Meant(s, f)|
    ensures !Misread(s) ==> Encode(s, f) == Meant(s, f)
  {
    if s != "" {
      MeantIsLonger(s[1..], f);
    }
  }

  /** The plain flag does what it is meant to do exactly if no ampersand is taken for the start of a later entity. */
  lemma MeantExactly(s: string, f: Flags)
    requires f.amps
    ensures Encode(s, f) == Meant(s, f) <==> !Misread(s)
  {
    MeantIsLonger(s, f);
  }

  predicate Unencoded(s: string) {
    forall i | 0 <= i < |s| :: s[i] !in {'&', '<', '>', '"'}
  }

  /** Characters that are never encoded stay what they are. */
  lemma {:induction false} PlainAhead(a: string, tail: string, f: Flags)
    requires Unencoded(a)
    ensures Encode(a + tail, f) == a + Encode(tail, f) && Meant(a + tail, f) == a + Meant(tail, f)
  {
    if a == "" {
      assert a + tail == tail;
      assert "" + Encode(tail, f) == Encode(tail, f) && "" + Meant(tail, f) == Meant(tail, f);
    } else {
      var c, rest := a[0], a[1..];
      assert (a + tail)[0] == c && (a + tail)[1..] == rest + tail;
      PlainAhead(rest, tail, f);
      Text.Append([c], rest, Encode(tail, f));
      Text.Append([c], rest, Meant(tail, f));
      assert a == [c] + rest;
    }
  }

  /** `&lt;` starts no entity that is let through, so it should be encoded, whatever follows. */
  lemma MeantAmpersand(tail: string, f: Flags)
    requires f.amps
    ensures Meant("&lt;" + tail, f) == "&amp;lt;" + Meant(tail, f)
    ensures HasNumericEntity(tail) ==> Misread("&lt;" + tail)
  {
    var s := "&lt;" + tail;
    assert s[0] == '&' && s[1] == 'l' && s[1..] == "lt;" + tail;
    assert !StartsEntity(s);
    PlainAhead("lt;", tail, f);
    Text.Append("&amp;", "lt;", Meant(tail, f));
    if HasNumericEntity(tail) {
      EntityAhead("&lt;", tail);
    }
  }

  lemma EntityStays(s: string, f: Flags)
    requires f.amps && NumericEntity(s) && Unencoded(s[1..])
    ensures Encode(s, f) == s && Meant(s, f) == s
  {
    var rest := s[1..];
    PlainAhead(rest, "", f);
    assert rest + "" == rest && s == [s[0]] + rest;
  }

  lemma MisreadFront(tail: string, f: Flags)
    requires f.amps && HasNumericEntity(tail) && Encode(tail, f) == tail && Meant(tail, f) == tail
    ensures Misread("&lt;" + tail) && Encode("&lt;" + tail, f) == "&lt;" + tail && Meant("&lt;" + tail, f) == "&amp;lt;" + tail
  {
    assert NoMarkup("&lt;");
    RawAhead("&lt;", tail, f);
    MeantAmpersand(tail, f);
  }

  /** `&lt;&#65;` is let through as it is, though its first ampersand starts no entity of the expression. */
  lemma MisreadAmpersand(s: string, f: Flags)
    requires f.amps && s == "&lt;&#65;"
    ensures Misread(s) && Encode(s, f) == s && Meant(s, f) == "&amp;lt;" + s[4..]
  {
    var tail := s[4..];
    assert tail == "&#65;" && s == "&lt;" + tail;
    assert DecimalEntity(tail, 2) && NumericEntity(tail);
    EntityStays(tail, f);
    MisreadFront(tail, f);
  }

  predicate NoMarkup(s: string) {
    forall i | 0 <= i < |s| :: s[i] !in {'<', '>', '"'}
  }

  lemma {:induction false} EntityAhead(a: string, tail: string)
    requires HasNumericEntity(tail)
    ensures HasNumericEntity(a + tail)
  {
    if a == "" {
      assert a + tail == tail;
    } else {
      assert (a + tail)[1..] == a[1..] + tail;
      EntityAhead(a[1..], tail);
    }
  }

  lemma RawHead(s: string, f: Flags)
    requires f.amps && s != "" && s[0] !in {'<', '>', '"'} && HasNumericEntity(s)
    ensures EncodeHead(s, f) == [s[0]]
  {
  }

  /** In front of a numeric entity the plain flag leaves every ampersand raw. */
  lemma {:induction false} RawAhead(a: string, tail: string, f: Flags)
    requires f.amps && NoMarkup(a) && HasNumericEntity(tail)
    ensures Encode(a + tail, f) == a + Encode(tail, f)
  {
    if a == "" {
      assert a + tail == tail;
    } else {
      var c, rest := a[0], a[1..];
      EntityAhead(a, tail);
      assert (a + tail)[0] == c && (a + tail)[1..] == rest + tail;
      RawHead(a + tail, f);
      RawAhead(rest, tail, f);
      Text.Append([c], rest, Encode(tail, f));
      assert a == [c] + rest;
    }
  }

  /** So the plain flag is not reversible: a later entity lets `&lt;` through, which reads as `<`. */
  lemma EarlierStaysRaw(tail: string, f: Flags)
    requires f.amps && HasNumericEntity(tail)
    ensures Encode("&lt;" + tail, f) == "&lt;" + Encode(tail, f)
    ensures Decode(Encode("&lt;" + tail, f)) == "<" + Decode(Encode(tail, f))
  {
    RawAhead("&lt;", tail, f);
    var t := "&lt;" + Encode(tail, f);
    assert "&lt;" <= t && t[1] == 'l' && t[4..] == Encode(tail, f);
  }

  // ---- Brackets and quotes, under every flag ----

  /** What the flags do not encode. */
  predicate Untouched(c: char, f: Flags) {
    && (c in {'<', '>'} ==> !f.angles) && (c == '"' ==> !f.quotes)
    && (c == '&' ==> !f.amps && !f.doubleAmps)
  }

  /** Text that the flags do not concern is left as it is. */
  lemma {:induction false} UntouchedKept(s: string, f: Flags)
    requires forall i | 0 <= i < |s| :: Untouched(s[i], f)
    ensures Encode(s, f) == s
  {
    if s != "" {
      UntouchedKept(s[1..], f);
      assert s == [s[0]] + s[1..];
    }
  }

  predicate Raw(c: char, f: Flags) {
    (f.angles && c in {'<', '>'}) || (f.quotes && c == '"')
  }

  /** No bracket or quote that the flags concern is left raw, whatever happens to the ampersands. */
  lemma {:induction false} NoneLeftRaw(s: string, f: Flags)
    ensures forall i | 0 <= i < |Encode(s, f)| :: !Raw(Encode(s, f)[i], f)
  {
    if s != "" {
      NoneLeftRaw(s[1..], f);
      var e, r := EncodeHead(s, f), Encode(s[1..], f);
      assert forall i | 0 <= i < |e| :: !Raw(e[i], f);
      assert forall i | 0 <= i < |e + r| :: (e + r)[i] == if i < |e| then e[i] else r[i - |e|];
    }
  }

  /** Without ampersands every combination of the flags is reversible. */
  lemma {:induction false} DecodePlain(s: string, f: Flags)
    requires forall i | 0 <= i < |s| :: s[i] != '&'
    ensures Decode(Encode(s, f)) == s
  {
    if s != "" {
      var e, rest := EncodeHead(s, f), Encode(s[1..], f);
      DecodePlain(s[1..], f);
      if |e| > 1 {
        EntityFront(e, s[0], rest);
      } else {
        assert (e + rest)[0] == s[0] && (e + rest)[1..] == rest;
      }
      assert s == [s[0]] + s[1..];
    }
  }
}
