/** `getFlagEmoji`, written out identically in the standings and circuits
    pages: a two-letter country code becomes the pair of Unicode regional
    indicator symbols that renders as that country's flag. The result is
    the sequence of code points `String.fromCodePoint` receives. */
module Flags {

  /** U+1F3C1 CHEQUERED FLAG, returned for anything but a two-character code. */
  const ChequeredFlag: int := 0x1F3C1

  /** 127397 = U+1F1E6 REGIONAL INDICATOR SYMBOL LETTER A minus the code of 'A'. */
  const RegionalIndicatorOffset: int := 127397

  /** `toUpperCase` on ASCII; other characters are left as they are. */
  function AsciiUpper(c: char): (u: char)
    ensures 'a' <= c <= 'z' ==> u as int == c as int - 32
    ensures !('a' <= c <= 'z') ==> u == c
  {
    if 'a' <= c <= 'z' then (c as int - 32) as char else c
  }

  function Upper(s: string): (u: string)
    ensures |u| == |s|
    ensures forall i :: 0 <= i < |s| ==> u[i] == AsciiUpper(s[i])
  {
    seq(|s|, i requires 0 <= i < |s| => AsciiUpper(s[i]))
  }

  predicate IsAsciiLetter(c: char) {
    'a' <= c <= 'z' || 'A' <= c <= 'Z'
  }

  /** U+1F1E6 .. U+1F1FF, REGIONAL INDICATOR SYMBOL LETTER A .. Z. */
  predicate IsRegionalIndicator(cp: int) {
    0x1F1E6 <= cp <= 0x1F1FF
  }

  function FlagEmoji(code: string): (r: seq<int>)
    ensures |code| != 2 <==> r == [ChequeredFlag]
    ensures |code| == 2 ==> |r| == 2
    ensures |code| == 2 ==>
      forall i :: 0 <= i < 2 ==> r[i] - RegionalIndicatorOffset == AsciiUpper(code[i]) as int
  {
    if |code| != 2 then [ChequeredFlag]
    else
      var u := Upper(code);
      seq(|u|, i requires 0 <= i < |u| => RegionalIndicatorOffset + u[i] as int)
  }

  /** The emoji spells a real flag (two regional indicators) exactly when
      the code is two ASCII letters, in either case. */
  lemma FlagIsIndicatorPairIffLetters(code: string)
    requires |code| == 2
    ensures (IsRegionalIndicator(FlagEmoji(code)[0]) && IsRegionalIndicator(FlagEmoji(code)[1]))
            <==> (IsAsciiLetter(code[0]) && IsAsciiLetter(code[1]))
  {
    var r := FlagEmoji(code);
    forall i | 0 <= i < 2
      ensures IsRegionalIndicator(r[i]) <==> IsAsciiLetter(code[i])
    {
      var c := code[i];
      assert r[i] == RegionalIndicatorOffset + AsciiUpper(c) as int;
    }
  }

  /** Two two-character codes give the same emoji exactly when they agree
      after upper-casing; the fallback flag is never a two-character code's
      emoji. */
  lemma FlagEmojiCaseInsensitive(a: string, b: string)
    ensures FlagEmoji(a) == FlagEmoji(b) <==>
            (|a| != 2 && |b| != 2) || (|a| == 2 && |b| == 2 && Upper(a) == Upper(b))
  {
    if |a| == 2 && |b| == 2 && FlagEmoji(a) == FlagEmoji(b) {
      var ua, ub := Upper(a), Upper(b);
      forall i | 0 <= i < 2 ensures ua[i] == ub[i] {
        assert FlagEmoji(a)[i] == FlagEmoji(b)[i];
      }
    }
  }
}
