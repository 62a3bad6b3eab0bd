/** `formatPhoneNumber` and `getInitials` from the shared helpers. */
module Utils {
  import opened Text

  /** The pattern `(\+998)(\d{2})(\d{3})(\d{2})(\d{2})` matches at index `i`:
      "+998" followed by nine ASCII digits. */
  predicate PhoneAt(s: string, i: int)
  {
    0 <= i && i + 13 <= |s| && s[i..i + 4] == "+998" && AllDigits(s[i + 4..i + 13])
  }

  /** The leftmost match at or after `from`, as the regular-expression search
      finds it. */
  function FindPhone(s: string, from: nat): (r: int)
    ensures r == -1 || (from <= r && PhoneAt(s, r))
    ensures forall j :: from <= j && (r == -1 || j < r) ==> !PhoneAt(s, j)
    decreases |s| - from
  {
    if from + 13 > |s| then -1
    else if PhoneAt(s, from) then from
    else FindPhone(s, from + 1)
  }

  /** The replacement `$1 $2 $3 $4 $5` for the 13 characters of a match. */
  function Grouped(p: string): (r: string)
    requires |p| == 13
    ensures |r| == 17
  {
    p[..4] + " " + p[4..6] + " " + p[6..9] + " " + p[9..11] + " " + p[11..]
  }

  /** `formatPhoneNumber(phone)`: only a phone starting with "+998" is
      touched, and then only its first match of the pattern is spaced out;
      whatever surrounds the match is kept. */
  function FormatPhoneNumber(phone: string): (r: string)
    ensures phone == "" ==> r == ""
    ensures !StartsWith(phone, "+998") ==> r == phone
    ensures StartsWith(phone, "+998") && FindPhone(phone, 0) == -1 ==> r == phone
    ensures StartsWith(phone, "+998") && PhoneAt(phone, 0) ==> r == Grouped(phone[..13]) + phone[13..]
    ensures var i := FindPhone(phone, 0);
            StartsWith(phone, "+998") && i >= 0 ==> r == phone[..i] + Grouped(phone[i..i + 13]) + phone[i + 13..]
  {
    if phone == "" then ""
    else if StartsWith(phone, "+998") then
      var i := FindPhone(phone, 0);
      if i == -1 then phone else phone[..i] + Grouped(phone[i..i + 13]) + phone[i + 13..]
    else phone
  }

  lemma FormatExample()
    ensures FormatPhoneNumber("+998912345678") == "+998 91 234 56 78"
  {
    var p := "+998912345678";
    assert p[..4] == "+998" && AllDigits(p[4..13]);
    assert p[..13] == p && p[13..] == "";
    var f := FormatPhoneNumber(p);
    assert f == Grouped(p);
    assert p[4..6] == "91" && p[6..9] == "234" && p[9..11] == "56" && p[11..] == "78";
  }

  /** The text with every space removed. */
  function DropSpaces(s: string): (r: string)
    ensures forall i :: 0 <= i < |r| ==> r[i] != ' '
  {
    if s == [] then []
    else
      var rest := DropSpaces(s[1..]);
      if s[0] == ' ' then rest
      else
        var r := [s[0]] + rest;
        assert forall i :: 1 <= i < |r| ==> r[i] == rest[i - 1];
        r
  }

  lemma {:induction false} DropSpacesAppend(a: string, b: string)
    ensures DropSpaces(a + b) == DropSpaces(a) + DropSpaces(b)
  {
    if a != [] {
      var head := if a[0] == ' ' then [] else [a[0]];
      assert (a + b)[0] == a[0] && (a + b)[1..] == a[1..] + b;
      assert DropSpaces(a + b) == head + DropSpaces(a[1..] + b);
      assert DropSpaces(a) == head + DropSpaces(a[1..]);
      DropSpacesAppend(a[1..], b);
    } else {
      assert a + b == b;
    }
  }

  lemma {:induction false} DropSpacesOfSpaceless(s: string)
    requires forall i :: 0 <= i < |s| ==> s[i] != ' '
    ensures DropSpaces(s) == s
  {
    if s != [] {
      assert forall i :: 0 <= i < |s| - 1 ==> s[1..][i] == s[i + 1];
      DropSpacesOfSpaceless(s[1..]);
      assert s == [s[0]] + s[1..];
    }
  }

  lemma DropAroundSpace(x: string, y: string)
    ensures DropSpaces(x + " " + y) == DropSpaces(x) + DropSpaces(y)
  {
    DropSpacesAppend(x + " ", y);
    DropSpacesAppend(x, " ");
  }

  lemma DropSpacesOfGrouped(p: string)
    requires |p| == 13 && forall i :: 0 <= i < 13 ==> p[i] != ' '
    ensures DropSpaces(Grouped(p)) == p
  {
    var a, b, c, d, e := p[..4], p[4..6], p[6..9], p[9..11], p[11..];
    DropSpacesOfSpaceless(a);
    DropSpacesOfSpaceless(b);
    DropSpacesOfSpaceless(c);
    DropSpacesOfSpaceless(d);
    DropSpacesOfSpaceless(e);
    DropAroundSpace(d, e);
    DropAroundSpace(c, d + " " + e);
    DropAroundSpace(b, c + " " + (d + " " + e));
    DropAroundSpace(a, b + " " + (c + " " + (d + " " + e)));
    assert Grouped(p) == a + " " + (b + " " + (c + " " + (d + " " + e)));
    assert p == a + (b + (c + (d + e)));
  }

  /** Formatting only inserts spaces: removing them from the formatted
      thirteen-character phone gives the phone back. */
  lemma FormatOnlyInsertsSpaces(phone: string)
    requires |phone| == 13 && PhoneAt(phone, 0)
    ensures DropSpaces(FormatPhoneNumber(phone)) == phone
  {
    assert phone[..13] == phone && phone[13..] == [];
    forall i | 0 <= i < 13 ensures phone[i] != ' ' {
      if i >= 4 { assert phone[4..13][i - 4] == phone[i]; }
    }
    assert FormatPhoneNumber(phone) == Grouped(phone) + [];
    assert Grouped(phone) + [] == Grouped(phone);
    DropSpacesOfGrouped(phone);
  }

  /** Formatting a well-formed thirteen-character phone twice changes
      nothing more: the spaced result no longer matches the pattern. */
  lemma FormatIdempotent(phone: string)
    requires |phone| == 13 && PhoneAt(phone, 0)
    ensures FormatPhoneNumber(FormatPhoneNumber(phone)) == FormatPhoneNumber(phone)
  {
    assert phone[..13] == phone && phone[13..] == [];
    var f := FormatPhoneNumber(phone);
    assert f == Grouped(phone);
    assert f[..4] == "+998";
    forall j ensures !PhoneAt(f, j) {
      if j == 0 {
        assert f[4] == ' ';
        assert f[4..13][0] == ' ';
      } else if 0 < j && j + 13 <= |f| {
        assert f[j..j + 4][0] == f[j] != '+';
      }
    }
  }

  /** `s.split(' ')`: the pieces between spaces, always at least one. */
  function Split(s: string): (r: seq<string>)
    ensures |r| >= 1
    ensures forall k, i :: 0 <= k < |r| && 0 <= i < |r[k]| ==> r[k][i] != ' '
  {
    if s == [] then [""]
    else
      var rest := Split(s[1..]);
      if s[0] == ' ' then [""] + rest
      else
        var r := [[s[0]] + rest[0]] + rest[1..];
        assert forall k :: 1 <= k < |r| ==> r[k] == rest[k];
        r
  }

  /** `parts.join(' ')`. */
  function Join(parts: seq<string>): string
    requires |parts| >= 1
  {
    if |parts| == 1 then parts[0] else parts[0] + " " + Join(parts[1..])
  }

  /** Joining the pieces with spaces gives the text back. */
  lemma {:induction false} JoinSplit(s: string)
    ensures Join(Split(s)) == s
  {
    if s != [] {
      JoinSplit(s[1..]);
      var rest := Split(s[1..]);
      if s[0] != ' ' {
        var r := Split(s);
        assert r[1..] == rest[1..];
        if |rest| > 1 {
          assert Join(rest) == rest[0] + " " + Join(rest[1..]);
        }
      }
    }
  }

  /** Splitting a text at a space that follows a space-free word. */
  lemma {:induction false} SplitAtFirstSpace(a: string, b: string)
    requires forall i :: 0 <= i < |a| ==> a[i] != ' '
    ensures Split(a + " " + b) == [a] + Split(b)
  {
    if a != [] {
      assert (a + " " + b)[1..] == a[1..] + " " + b;
      SplitAtFirstSpace(a[1..], b);
      assert [a[0]] + a[1..] == a;
    } else {
      assert (a + " " + b)[1..] == b;
    }
  }

  /** A space-free word is one piece. */
  lemma {:induction false} SplitWord(a: string)
    requires forall i :: 0 <= i < |a| ==> a[i] != ' '
    ensures Split(a) == [a]
  {
    if a != [] {
      SplitWord(a[1..]);
      assert [a[0]] + a[1..] == a;
    }
  }

  /** `s.charAt(0)`: the empty string for an empty `s`. */
  function FirstChar(s: string): (r: string)
    ensures |r| <= 1 && (s != [] ==> r == [s[0]])
  {
    if s == [] then "" else [s[0]]
  }

  /** `getInitials(name)`. */
  function GetInitials(name: string): (r: string)
    ensures name == "" ==> r == ""
    ensures |r| <= 2
    ensures forall i :: 0 <= i < |r| ==> !('a' <= r[i] <= 'z')
  {
    if name == "" then ""
    else
      var names := Split(name);
      if |names| == 1 then ToUpper(FirstChar(names[0]))
      else ToUpper(FirstChar(names[0]) + FirstChar(names[1]))
  }

  /** A single word gives its first character in upper case. */
  lemma InitialsOfWord(w: string)
    requires w != [] && forall i :: 0 <= i < |w| ==> w[i] != ' '
    ensures GetInitials(w) == [UpperChar(w[0])]
  {
    SplitWord(w);
  }

  /** Two or more words give the upper-cased first characters of the first
      two; whatever follows the second word is ignored. */
  lemma InitialsOfWords(a: string, b: string, rest: string)
    requires forall i :: 0 <= i < |a| ==> a[i] != ' '
    requires forall i :: 0 <= i < |b| ==> b[i] != ' '
    ensures GetInitials(a + " " + b + " " + rest) == ToUpper(FirstChar(a) + FirstChar(b))
    ensures GetInitials(a + " " + b) == ToUpper(FirstChar(a) + FirstChar(b))
  {
    SplitAtFirstSpace(a, b + " " + rest);
    SplitAtFirstSpace(b, rest);
    assert a + " " + b + " " + rest == a + " " + (b + " " + rest);
    SplitAtFirstSpace(a, b);
  }
}
