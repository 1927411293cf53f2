/** The sweet schema of models/sweets.js: what a stored sweet looks like,
    which records the schema's validators accept, the defaults and the
    `trim` setter it applies, and the uniqueness of names across the table. */
module SweetSchema {
  import opened Common

  type SweetId = nat

  /** A stored sweet. Price and quantity are whole numbers here; a
      description is absent unless one was given; the image always has a value. */
  datatype Sweet = Sweet(name: string, category: string, price: int, quantity: int,
                         description: Option<string>, image: string)

  /** The sweet collection, by id. */
  type Table = map<SweetId, Sweet>

  /** The schema's validators: `required` on name, category, price and quantity
      (a required string must not be empty), and `min: 0` on price and quantity. */
  predicate SweetValid(s: Sweet) {
    s.name != "" && s.category != "" && s.price >= 0 && s.quantity >= 0
  }

  /** `unique: true` on name: no two records share a name. */
  ghost predicate NamesUnique(t: Table) {
    forall i, j :: i in t && j in t && i != j ==> t[i].name != t[j].name
  }

  /** Whether some record already has this name (`findOne({ name })`). */
  predicate NameTaken(t: Table, name: string) {
    exists id :: id in t && t[id].name == name
  }

  // ----- The `trim` setter -----

  /** White space as String.prototype.trim removes it: the WhiteSpace and
      LineTerminator characters of ECMAScript. */
  const SpaceChars: set<char> := {
    ' ', '\t', '\n', '\r', '\U{000B}', '\U{000C}', '\U{00A0}', '\U{1680}',
    '\U{2000}', '\U{2001}', '\U{2002}', '\U{2003}', '\U{2004}', '\U{2005}',
    '\U{2006}', '\U{2007}', '\U{2008}', '\U{2009}', '\U{200A}',
    '\U{2028}', '\U{2029}', '\U{202F}', '\U{205F}', '\U{3000}', '\U{FEFF}'
  }

  predicate IsSpace(c: char) {
    c in SpaceChars
  }

  /** Every character of `s` from `lo` up to `hi` is white space. */
  ghost predicate SpaceBetween(s: string, lo: int, hi: int)
    requires 0 <= lo <= hi <= |s|
  {
    forall k :: lo <= k < hi ==> IsSpace(s[k])
  }

  /** Neither end of the string is white space. */
  predicate Trimmed(s: string) {
    s == [] || (!IsSpace(s[0]) && !IsSpace(s[|s| - 1]))
  }

  /** Drops the white space at the start: what is left is a suffix, and only
      white space was dropped. */
  function TrimStart(s: string): (r: string)
    ensures |r| <= |s| && r == s[|s| - |r|..]
    ensures SpaceBetween(s, 0, |s| - |r|)
    ensures r == [] || !IsSpace(r[0])
  {
    if s != [] && IsSpace(s[0]) then TrimStart(s[1..]) else s
  }

  /** Drops the white space at the end: what is left is a prefix, and only
      white space was dropped. */
  function TrimEnd(s: string): (r: string)
    ensures |r| <= |s| && r == s[..|r|]
    ensures SpaceBetween(s, |r|, |s|)
    ensures r == [] || !IsSpace(r[|r| - 1])
  {
    if s != [] && IsSpace(s[|s| - 1]) then TrimEnd(s[..|s| - 1]) else s
  }

  /** String.prototype.trim: the middle of `s` between white space at both
      ends, itself starting and ending with something other than white space. */
  function Trim(s: string): (r: string)
    ensures Trimmed(r)
    ensures exists i :: InMiddle(s, r, i)
  {
    TrimmedSlice(s);
    TrimEnd(TrimStart(s))
  }

  /** `r` is `s` from index `i` on, with only white space around it. */
  ghost predicate InMiddle(s: string, r: string, i: int) {
    0 <= i <= |s| - |r| && s[i..i + |r|] == r
    && SpaceBetween(s, 0, i) && SpaceBetween(s, i + |r|, |s|)
  }

  /** Where the trimmed string sits in the original: after the leading white
      space that TrimStart drops. */
  lemma TrimmedSlice(s: string)
    ensures Trimmed(TrimEnd(TrimStart(s)))
    ensures InMiddle(s, TrimEnd(TrimStart(s)), |s| - |TrimStart(s)|)
  {
    MiddleOf(s, TrimStart(s), TrimEnd(TrimStart(s)));
  }

  /** A prefix `r` of a suffix `a` of `s`, with white space only around each,
      sits in the middle of `s`; it keeps the non-space start of `a`. */
  lemma MiddleOf(s: string, a: string, r: string)
    requires |a| <= |s| && a == s[|s| - |a|..] && SpaceBetween(s, 0, |s| - |a|)
    requires a == [] || !IsSpace(a[0])
    requires |r| <= |a| && r == a[..|r|] && SpaceBetween(a, |r|, |a|)
    requires r == [] || !IsSpace(r[|r| - 1])
    ensures Trimmed(r)
    ensures InMiddle(s, r, |s| - |a|)
  {
    var i := |s| - |a|;
    if r != [] {
      assert r[0] == a[0];
    }
    forall k | i + |r| <= k < |s|
      ensures IsSpace(s[k])
    {
      assert s[k] == a[k - i];
    }
    assert s[i..i + |r|] == r;
  }

  /** Trimming keeps a string that has no white space at either end. */
  lemma TrimKeepsTrimmed(s: string)
    requires Trimmed(s)
    ensures Trim(s) == s
  {
  }

  /** Trimming twice is trimming once. */
  lemma TrimIdempotent(s: string)
    ensures Trim(Trim(s)) == Trim(s)
  {
    TrimKeepsTrimmed(Trim(s));
  }

  // ----- Building a record -----

  /** `new Sweet({ name, category, price, quantity, description, image })`:
      the description goes through `trim`, a missing image becomes `''`. */
  function Document(name: string, category: string, price: int, quantity: int,
                    description: Option<string>, image: Option<string>): Sweet
  {
    Sweet(name, category, price, quantity,
          if description.Some? then Some(Trim(description.value)) else None,
          image.GetOr(""))
  }

  /** The description of a record is stored trimmed. */
  predicate DescriptionTrimmed(s: Sweet) {
    s.description.None? || Trimmed(s.description.value)
  }

  /** What every record the handlers store satisfies when nothing bypasses
      the schema: each record passes its validators and has a trimmed
      description, and names are unique. */
  ghost predicate TableValid(t: Table) {
    && NamesUnique(t)
    && forall id :: id in t ==> SweetValid(t[id]) && DescriptionTrimmed(t[id])
  }

  /** A new document takes the given fields, `''` for a missing image and the
      trimmed description; it passes the validators exactly when the required
      strings are non-empty and the numbers are not negative. */
  lemma DocumentFields(name: string, category: string, price: int, quantity: int,
                       description: Option<string>, image: Option<string>)
    ensures var s := Document(name, category, price, quantity, description, image);
      && s.name == name && s.category == category
      && s.price == price && s.quantity == quantity
      && (image.None? ==> s.image == "")
      && (image.Some? ==> s.image == image.value)
      && s.description.Some? == description.Some?
      && (description.Some? ==> s.description == Some(Trim(description.value)))
      && DescriptionTrimmed(s)
      && (SweetValid(s) <==> name != "" && category != "" && price >= 0 && quantity >= 0)
  {
  }
}
