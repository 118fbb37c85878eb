/** The string handling of the request handlers, over ASCII: `str.strip()`
    on every submitted field, and the room-slug derivation of `create_room`
    (lower-case, spaces and hyphens to underscores, keep only alphanumerics
    and underscores). */
module Text {

  /** `str.isspace` on ASCII: space, tab, line feed, vertical tab, form feed,
      carriage return and the four separators 0x1C-0x1F. */
  predicate IsSpace(c: char) {
    var n := c as int;
    n == 32 || 9 <= n <= 13 || 28 <= n <= 31
  }

  /** How many whitespace characters `str.lstrip()` removes. */
  function LeadingSpaces(s: string): (n: nat)
    ensures n <= |s|
    ensures forall i :: 0 <= i < n ==> IsSpace(s[i])
    ensures n < |s| ==> !IsSpace(s[n])
  {
    if s != [] && IsSpace(s[0]) then 1 + LeadingSpaces(s[1..]) else 0
  }
  /** How many whitespace characters `str.rstrip()` removes. */
  function TrailingSpaces(s: string): (n: nat)
    ensures n <= |s|
    ensures forall i :: |s| - n <= i < |s| ==> IsSpace(s[i])
    ensures n < |s| ==> !IsSpace(s[|s| - 1 - n])
  {
    if s != [] && IsSpace(s[|s| - 1]) then 1 + TrailingSpaces(s[..|s| - 1]) else 0
  }
  /** `str.strip()`: the result is empty exactly for blank input; otherwise it
      is the contiguous piece of the input that starts at the first and ends
      at the last non-whitespace character, and everything cut off is
      whitespace. */
  function Trim(s: string): (r: string)
    ensures r == [] <==> forall i :: 0 <= i < |s| ==> IsSpace(s[i])
    ensures r != [] ==>
      var a := LeadingSpaces(s);
      && a + |r| <= |s|
      && r == s[a..a + |r|]
      && !IsSpace(r[0]) && !IsSpace(r[|r| - 1])
      && forall i :: 0 <= i < |s| && !(a <= i < a + |r|) ==> IsSpace(s[i])
  {
    var a := LeadingSpaces(s);
    if a == |s| then []
    else
      var b := TrailingSpaces(s);
      assert a < |s| - b;
      s[a..|s| - b]
  }
  /** A string that neither starts nor ends with whitespace is left as it is. */
  lemma TrimKeepsStripped(s: string)
    requires s != [] ==> !IsSpace(s[0]) && !IsSpace(s[|s| - 1])
    ensures Trim(s) == s
  {
    if s != [] {
      assert LeadingSpaces(s) == 0;
      assert TrailingSpaces(s) == 0;
    }
  }

  /** Stripping twice is stripping once. */
  lemma TrimIdempotent(s: string)
    ensures Trim(Trim(s)) == Trim(s)
  {
    TrimKeepsStripped(Trim(s));
  }

  // ----- slug derivation -----

  /** `str.lower` on ASCII. */
  function LowerChar(c: char): char {
    if 'A' <= c <= 'Z' then (c as int + 32) as char else c
  }

  function Lower(s: string): string {
    seq(|s|, i requires 0 <= i < |s| => LowerChar(s[i]))
  }

  /** `str.replace(old, new)` for single characters. */
  function Replace(s: string, from: char, to: char): string {
    seq(|s|, i requires 0 <= i < |s| => if s[i] == from then to else s[i])
  }

  /** `str.isalnum` on ASCII. */
  predicate IsAlnum(c: char) {
    'a' <= c <= 'z' || 'A' <= c <= 'Z' || '0' <= c <= '9'
  }

  /** The characters a slug may contain: `[a-z0-9_]`. */
  predicate IsSlugChar(c: char) {
    'a' <= c <= 'z' || '0' <= c <= '9' || c == '_'
  }

  /** The comprehension `''.join(c for c in s if c.isalnum() or c == '_')`:
      the kept characters, in order. */
  function KeepSlugChars(s: string): (r: string)
    ensures |r| <= |s|
    ensures forall i :: 0 <= i < |r| ==> r[i] in s && (IsAlnum(r[i]) || r[i] == '_')
    ensures (forall i :: 0 <= i < |s| ==> IsAlnum(s[i]) || s[i] == '_') ==> r == s
  {
    if s == [] then []
    else
      var rest := KeepSlugChars(s[1..]);
      if IsAlnum(s[0]) || s[0] == '_' then [s[0]] + rest else rest
  }

  /** The slug of a (stripped) room name. */
  function Slug(name: string): (r: string)
    ensures forall i :: 0 <= i < |r| ==> IsSlugChar(r[i])
    ensures |r| <= |name|
  {
    var lowered := Lower(name);
    var underscored := Replace(Replace(lowered, ' ', '_'), '-', '_');
    assert forall c :: c in underscored ==> !('A' <= c <= 'Z');
    KeepSlugChars(underscored)
  }

  /** A string made of slug characters is its own slug. */
  lemma SlugFixesSlugStrings(s: string)
    requires forall i :: 0 <= i < |s| ==> IsSlugChar(s[i])
    ensures Slug(s) == s
  {
    assert Lower(s) == s;
    assert Replace(s, ' ', '_') == s;
    assert Replace(s, '-', '_') == s;
  }

  /** Deriving a slug from a slug changes nothing. */
  lemma SlugIdempotent(name: string)
    ensures Slug(Slug(name)) == Slug(name)
  {
    SlugFixesSlugStrings(Slug(name));
  }

  /** Names that differ only in the case of their letters share a slug. */
  lemma SlugIgnoresCase(a: string, b: string)
    requires |a| == |b|
    requires forall i :: 0 <= i < |a| ==> LowerChar(a[i]) == LowerChar(b[i])
    ensures Slug(a) == Slug(b)
  {
    assert Lower(a) == Lower(b);
  }

  /** "dev team" becomes `dev_team`. */
  lemma SlugOfDevTeamLower()
    ensures Slug("dev team") == "dev_team"
  {
    assert Lower("dev team") == "dev team";
    assert Replace("dev team", ' ', '_') == "dev_team";
    assert Replace("dev_team", '-', '_') == "dev_team";
    var kept := "dev_team";
    assert forall i :: 0 <= i < |kept| ==> IsAlnum(kept[i]) || kept[i] == '_';
  }

  /** "Dev Team" has the same slug as "dev team". */
  lemma SlugOfDevTeam()
    ensures Slug("Dev Team") == "dev_team"
  {
    SlugIgnoresCase("Dev Team", "dev team");
    SlugOfDevTeamLower();
  }

  /** The kept characters of a concatenation are those of each part, in order. */
  lemma {:induction false} KeepSlugCharsAppend(a: string, b: string)
    ensures KeepSlugChars(a + b) == KeepSlugChars(a) + KeepSlugChars(b)
  {
    if a != [] {
      assert (a + b)[0] == a[0];
      assert (a + b)[1..] == a[1..] + b;
      KeepSlugCharsAppend(a[1..], b);
    } else {
      assert a + b == b;
    }
  }

  /** The filter step of `SlugOfMyRoomLower`: "my_room!" splits into
      "my_room", which the filter keeps whole, and "!", which it drops. */
  lemma KeepMyRoom()
    ensures "my_room!" == "my_room" + "!"
    ensures KeepSlugChars("my_room") == "my_room"
    ensures KeepSlugChars("!") == ""
  {
    var kept := "my_room";
    assert forall i :: 0 <= i < |kept| ==> IsAlnum(kept[i]) || kept[i] == '_';
    var bang := "!";
    assert !IsAlnum(bang[0]) && bang[1..] == [];
  }

  /** "my room!" becomes `my_room`. */
  lemma SlugOfMyRoomLower()
    ensures Slug("my room!") == "my_room"
  {
    assert Lower("my room!") == "my room!";
    assert Replace("my room!", ' ', '_') == "my_room!";
    assert Replace("my_room!", '-', '_') == "my_room!";
    KeepMyRoom();
    KeepSlugCharsAppend("my_room", "!");
  }

  /** "My Room!" has the same slug as "my room!". */
  lemma SlugOfMyRoom()
    ensures Slug("My Room!") == "my_room"
  {
    SlugIgnoresCase("My Room!", "my room!");
    SlugOfMyRoomLower();
  }

  /** "dev-team" becomes `dev_team`: the hyphen turns into `_`. */
  lemma SlugOfHyphenatedLower()
    ensures Slug("dev-team") == "dev_team"
  {
    assert Lower("dev-team") == "dev-team";
    assert Replace("dev-team", ' ', '_') == "dev-team";
    assert Replace("dev-team", '-', '_') == "dev_team";
    var kept := "dev_team";
    assert forall i :: 0 <= i < |kept| ==> IsAlnum(kept[i]) || kept[i] == '_';
  }

  /** "Dev-Team" has the same slug as "dev-team". */
  lemma SlugOfHyphenatedName()
    ensures Slug("Dev-Team") == "dev_team"
  {
    SlugIgnoresCase("Dev-Team", "dev-team");
    SlugOfHyphenatedLower();
  }

  /** A name made only of punctuation, such as "!!!", has the empty slug. */
  lemma SlugOfPunctuation()
    ensures Slug("!!!") == ""
  {
    assert Lower("!!!") == "!!!";
    assert Replace("!!!", ' ', '_') == "!!!";
    assert Replace("!!!", '-', '_') == "!!!";
  }
}
