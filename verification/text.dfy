/** String helpers for the protocol's text conventions: the lower-case id form
    of a name, the upper-case enum form of a protocol condition name, decimal
    numbers, and words separated by single spaces. Characters are ASCII only. */
module Text {

  import opened Results

  predicate IsDigit(c: char) {
    '0' <= c <= '9'
  }

  predicate IsLower(c: char) {
    'a' <= c <= 'z'
  }

  predicate IsUpper(c: char) {
    'A' <= c <= 'Z'
  }

  /** Characters that may appear in an id: lower-case letters and digits. */
  predicate IsIdChar(c: char) {
    IsLower(c) || IsDigit(c)
  }

  predicate IsId(s: string) {
    forall i :: 0 <= i < |s| ==> IsIdChar(s[i])
  }

  predicate HasNoSpace(s: string) {
    forall i :: 0 <= i < |s| ==> s[i] != ' '
  }

  function LowerChar(c: char): char {
    if IsUpper(c) then (c as int + 32) as char else c
  }

  function UpperChar(c: char): char {
    if IsLower(c) then (c as int - 32) as char else c
  }

  /** The id form of a name: letters lower-cased, digits kept, every other
      character dropped ("Tapu Koko" becomes "tapukoko"). */
  function ToId(s: string): (r: string)
    ensures |r| <= |s|
    ensures IsId(r)
  {
    if |s| == 0 then ""
    else if IsLower(s[0]) || IsUpper(s[0]) || IsDigit(s[0]) then [LowerChar(s[0])] + ToId(s[1..])
    else ToId(s[1..])
  }

  /** An id is its own id form, so converting twice changes nothing. */
  lemma {:induction false} ToIdKeepsIds(s: string)
    requires IsId(s)
    ensures ToId(s) == s
  {
    if |s| > 0 {
      assert IsId(s[1..]) by {
        forall i | 0 <= i < |s[1..]| ensures IsIdChar(s[1..][i]) {
          assert s[1..][i] == s[i + 1];
        }
      }
      ToIdKeepsIds(s[1..]);
      assert IsIdChar(s[0]);
    }
  }

  lemma ToIdIdempotent(s: string)
    ensures ToId(ToId(s)) == ToId(s)
  {
    ToIdKeepsIds(ToId(s));
  }

  /** Every occurrence of the "move: " tag removed, scanning left to right. */
  function DropMoveTag(s: string): (r: string)
    ensures |r| <= |s|
  {
    if |s| == 0 then ""
    else if |s| >= 6 && s[..6] == "move: " then DropMoveTag(s[6..])
    else [s[0]] + DropMoveTag(s[1..])
  }

  function EnumChar(c: char): char {
    if c == ' ' then '_' else UpperChar(c)
  }

  function MapEnumChars(s: string): (r: string)
    ensures |r| == |s|
    ensures forall i :: 0 <= i < |s| ==> r[i] == EnumChar(s[i])
  {
    if |s| == 0 then "" else [EnumChar(s[0])] + MapEnumChars(s[1..])
  }

  /** Strings already in enum form: no space and no lower-case letter. */
  predicate IsEnumForm(s: string) {
    forall i :: 0 <= i < |s| ==> s[i] != ' ' && !IsLower(s[i])
  }

  /** The enum member name a protocol condition name denotes: the "move: " tag
      removed, spaces turned into underscores, letters upper-cased
      ("Electric terrain" becomes "ELECTRIC_TERRAIN"). */
  function EnumName(s: string): (r: string)
    ensures IsEnumForm(r)
  {
    MapEnumChars(DropMoveTag(s))
  }

  lemma {:induction false} DropMoveTagKeepsEnumForm(s: string)
    requires IsEnumForm(s)
    ensures DropMoveTag(s) == s
  {
    if |s| > 0 {
      assert !IsLower(s[0]);
      assert IsEnumForm(s[1..]) by {
        forall i | 0 <= i < |s[1..]| ensures s[1..][i] != ' ' && !IsLower(s[1..][i]) {
          assert s[1..][i] == s[i + 1];
        }
      }
      DropMoveTagKeepsEnumForm(s[1..]);
    }
  }

  /** Normalising a name that is already normalised changes nothing. */
  lemma EnumNameIdempotent(s: string)
    ensures EnumName(EnumName(s)) == EnumName(s)
  {
    var e := EnumName(s);
    DropMoveTagKeepsEnumForm(e);
    assert MapEnumChars(e) == e;
  }

  function DigitChar(d: nat): (c: char)
    requires d < 10
    ensures IsDigit(c)
  {
    ('0' as int + d) as char
  }

  function DigitValue(c: char): nat
    requires IsDigit(c)
  {
    c as int - '0' as int
  }

  predicate IsDigits(s: string) {
    forall i :: 0 <= i < |s| ==> IsDigit(s[i])
  }

  /** Decimal rendering of a natural number, as `str(n)`. */
  function NatToString(n: nat): (r: string)
    ensures |r| >= 1
    ensures IsDigits(r)
    decreases n
  {
    if n < 10 then [DigitChar(n)] else NatToString(n / 10) + [DigitChar(n % 10)]
  }

  function DigitsValue(s: string): nat
    requires IsDigits(s)
  {
    if |s| == 0 then 0 else DigitsValue(s[..|s| - 1]) * 10 + DigitValue(s[|s| - 1])
  }

  /** A decimal natural number, as `int(s)` on a string of digits; anything
      else is rejected. */
  function ParseNat(s: string): Option<nat> {
    if |s| > 0 && IsDigits(s) then Some(DigitsValue(s)) else None
  }

  lemma {:induction false} ParseNatRoundTrip(n: nat)
    ensures ParseNat(NatToString(n)) == Some(n)
    decreases n
  {
    var s := NatToString(n);
    if n < 10 {
      assert s[..0] == "";
      assert DigitsValue(s) == DigitValue(DigitChar(n));
    } else {
      ParseNatRoundTrip(n / 10);
      assert s[..|s| - 1] == NatToString(n / 10);
      assert DigitValue(s[|s| - 1]) == n % 10;
      assert DigitsValue(s) == (n / 10) * 10 + n % 10;
    }
  }

  /** The words of a line, as `s.split(" ")`: empty words are kept. */
  function Split(s: string): (r: seq<string>)
    ensures |r| >= 1
  {
    if |s| == 0 then [""]
    else
      var rest := Split(s[1..]);
      if s[0] == ' ' then [""] + rest else [[s[0]] + rest[0]] + rest[1..]
  }

  /** Words glued with single spaces, as `" ".join(ws)`. */
  function Join(ws: seq<string>): string {
    if |ws| == 0 then ""
    else if |ws| == 1 then ws[0]
    else ws[0] + " " + Join(ws[1..])
  }

  lemma {:induction false} SplitWord(w: string)
    requires HasNoSpace(w)
    ensures Split(w) == [w]
  {
    if |w| > 0 {
      SplitWord(w[1..]);
      assert [w[0]] + w[1..] == w;
    }
  }

  lemma {:induction false} SplitWordThenRest(w: string, t: string)
    requires HasNoSpace(w)
    ensures Split(w + " " + t) == [w] + Split(t)
  {
    var s := w + " " + t;
    if |w| == 0 {
      assert s[1..] == t;
    } else {
      assert s[1..] == w[1..] + " " + t;
      SplitWordThenRest(w[1..], t);
      assert [w[0]] + w[1..] == w;
    }
  }

  /** Splitting a line made by joining space-free words gives the words back. */
  lemma {:induction false} SplitJoin(ws: seq<string>)
    requires |ws| >= 1
    requires forall i :: 0 <= i < |ws| ==> HasNoSpace(ws[i])
    ensures Split(Join(ws)) == ws
  {
    if |ws| == 1 {
      SplitWord(ws[0]);
    } else {
      SplitJoin(ws[1..]);
      SplitWordThenRest(ws[0], Join(ws[1..]));
      assert [ws[0]] + ws[1..] == ws;
    }
  }
}
