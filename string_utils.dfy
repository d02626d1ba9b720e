/**
 * Name and credential helpers: `serialize_name`, `serialize_name_entries`, and the guards
 * around the password hash and check (the hash and the check themselves are parameters).
 */
module StringUtils {
  import opened Wrappers
  import opened Documents

  // ---------------------------------------------------------------- characters

  /** The code points Python's `str.isspace` accepts, which is what `str.strip()` removes. */
  predicate IsSpace(c: char)
  {
    var n := c as int;
    (9 <= n <= 13) || (28 <= n <= 32) || n == 0x85 || n == 0xA0 || n == 0x1680
    || (0x2000 <= n <= 0x200A) || n == 0x2028 || n == 0x2029 || n == 0x202F
    || n == 0x205F || n == 0x3000
  }

  predicate IsAsciiUpper(c: char) { 'A' <= c <= 'Z' }

  predicate IsAsciiLower(c: char) { 'a' <= c <= 'z' }

  function LowerChar(c: char): char
  {
    if IsAsciiUpper(c) then (c as int + 32) as char else c
  }

  function UpperChar(c: char): char
  {
    if IsAsciiLower(c) then (c as int - 32) as char else c
  }

  /** `str.lower()`, restricted to ASCII letters. */
  function Lower(s: string): (r: string)
    ensures |r| == |s|
    ensures forall i :: 0 <= i < |s| ==> r[i] == LowerChar(s[i])
  {
    seq(|s|, i requires 0 <= i < |s| => LowerChar(s[i]))
  }

  // ---------------------------------------------------------------- strip

  /** The number of leading whitespace characters. */
  function LeadingSpaces(s: string): (k: nat)
    ensures k <= |s|
    ensures forall i :: 0 <= i < k ==> IsSpace(s[i])
    ensures k == |s| || !IsSpace(s[k])
  {
    if |s| > 0 && IsSpace(s[0]) then 1 + LeadingSpaces(s[1..]) else 0
  }

  /** The number of trailing whitespace characters. */
  function TrailingSpaces(s: string): (k: nat)
    ensures k <= |s|
    ensures forall i :: |s| - k <= i < |s| ==> IsSpace(s[i])
    ensures k == |s| || !IsSpace(s[|s| - 1 - k])
  {
    if |s| > 0 && IsSpace(s[|s| - 1]) then 1 + TrailingSpaces(s[..|s| - 1]) else 0
  }

  function TrimStart(s: string): (r: string)
    ensures r == [] || !IsSpace(r[0])
  {
    s[LeadingSpaces(s)..]
  }

  function TrimEnd(s: string): (r: string)
    ensures r == [] || !IsSpace(r[|r| - 1])
  {
    s[..|s| - TrailingSpaces(s)]
  }

  /**
   * `str.strip()`: leading and trailing whitespace removed. StripIsCore, StripOuterSpace and
   * StripUnchanged pin the result down.
   */
  function Strip(s: string): (r: string)
    ensures r == [] || (!IsSpace(r[0]) && !IsSpace(r[|r| - 1]))
  {
    TrimEnd(TrimStart(s))
  }

  // ---------------------------------------------------------------- split, capitalize, join

  /** `s.split(" ")`: every single space separates two tokens, so runs of spaces give empty tokens. */
  function Split(s: string): (r: seq<string>)
    ensures |r| >= 1
    ensures forall k :: 0 <= k < |r| ==> ' ' !in r[k]
  {
    if |s| == 0 then [""]
    else
      var rest := Split(s[1..]);
      if s[0] == ' ' then [""] + rest
      else [[s[0]] + rest[0]] + rest[1..]
  }

  /** `" ".join(ts)`. */
  function Join(ts: seq<string>): string
  {
    if |ts| == 0 then ""
    else if |ts| == 1 then ts[0]
    else ts[0] + " " + Join(ts[1..])
  }

  /** `str.capitalize()`: first character upper case, the rest lower case. */
  function Capitalize(t: string): (r: string)
    ensures |r| == |t|
  {
    if t == [] then [] else [UpperChar(t[0])] + Lower(t[1..])
  }

  /** The list comprehension `[n.capitalize() for n in ts]`. */
  function CapitalizeTokens(ts: seq<string>): (r: seq<string>)
    ensures |r| == |ts|
  {
    if ts == [] then [] else [Capitalize(ts[0])] + CapitalizeTokens(ts[1..])
  }

  /** `serialize_name`: strip, split on single spaces, capitalise every token, rejoin. */
  function SerializeName(name: string): string
  {
    Join(CapitalizeTokens(Split(Strip(name))))
  }

  // ---------------------------------------------------------------- what serialize_name computes

  /** Whether position `i` of `t` starts a space-separated token. */
  predicate TokenStart(t: string, i: nat)
    requires i < |t|
  {
    i == 0 || t[i - 1] == ' '
  }

  /** Character by character: upper case at the start of a token, lower case elsewhere. */
  function CapitalizedAt(t: string, i: nat): char
    requires i < |t|
  {
    if TokenStart(t, i) then UpperChar(t[i]) else LowerChar(t[i])
  }

  /** Left-to-right recasing; `atStart` says whether the first character starts a token. */
  function Recase(t: string, atStart: bool): (r: string)
    ensures |r| == |t|
  {
    if t == [] then []
    else [if atStart then UpperChar(t[0]) else LowerChar(t[0])] + Recase(t[1..], t[0] == ' ')
  }

  lemma {:induction false} RecaseAt(t: string, atStart: bool, i: nat)
    requires i < |t|
    ensures Recase(t, atStart)[i]
         == if (if i == 0 then atStart else t[i - 1] == ' ') then UpperChar(t[i]) else LowerChar(t[i])
  {
    if i > 0 {
      RecaseAt(t[1..], t[0] == ' ', i - 1);
    }
  }

  lemma {:induction false} RecaseConcat(a: string, b: string, atStart: bool)
    ensures Recase(a + b, atStart)
         == Recase(a, atStart) + Recase(b, if a == [] then atStart else a[|a| - 1] == ' ')
  {
    if a != [] {
      assert (a + b)[1..] == a[1..] + b;
      RecaseConcat(a[1..], b, a[0] == ' ');
    } else {
      assert a + b == b;
    }
  }

  lemma {:induction false} RecaseToken(t: string)
    requires ' ' !in t
    ensures Recase(t, true) == Capitalize(t)
    ensures t != [] ==> Recase(t[1..], false) == Lower(t[1..])
  {
    if t != [] {
      RecaseInside(t[1..]);
    }
  }

  lemma {:induction false} RecaseInside(u: string)
    requires ' ' !in u
    ensures Recase(u, false) == Lower(u)
  {
    if u != [] {
      assert ' ' !in u[1..] by {
        forall k | 0 <= k < |u[1..]| ensures u[1..][k] != ' ' { assert u[1..][k] == u[k + 1]; }
      }
      RecaseInside(u[1..]);
      assert Lower(u) == [LowerChar(u[0])] + Lower(u[1..]);
    }
  }

  lemma {:induction false} JoinSplit(s: string)
    ensures Join(Split(s)) == s
  {
    if |s| > 0 {
      var rest := Split(s[1..]);
      JoinSplit(s[1..]);
      if s[0] == ' ' {
        assert ([""] + rest)[1..] == rest;
      } else {
        var ts := [[s[0]] + rest[0]] + rest[1..];
        if |rest| == 1 {
          assert s == [s[0]] + s[1..];
        } else {
          assert ts[1..] == rest[1..];
          assert Join(rest) == rest[0] + " " + Join(rest[1..]);
          assert s == [s[0]] + s[1..];
        }
      }
    }
  }

  /** Recasing across one separating space: the text after it starts a token. */
  lemma RecaseAfterToken(t: string, rest: string)
    requires ' ' !in t
    ensures Recase(t + " " + rest, true) == Recase(t, true) + " " + Recase(rest, true)
  {
    var afterFirst := if t == [] then true else t[|t| - 1] == ' ';
    assert !afterFirst ==> t != [];
    assert t + " " + rest == t + (" " + rest);
    RecaseConcat(t, " " + rest, true);
    RecaseConcat(" ", rest, afterFirst);
    assert Recase(" ", afterFirst) == " ";
  }

  lemma {:induction false} JoinCapitalized(ts: seq<string>)
    requires |ts| >= 1
    requires forall k :: 0 <= k < |ts| ==> ' ' !in ts[k]
    ensures Join(CapitalizeTokens(ts)) == Recase(Join(ts), true)
  {
    RecaseToken(ts[0]);
    if |ts| > 1 {
      var tail := ts[1..];
      assert forall k :: 0 <= k < |tail| ==> ' ' !in tail[k] by {
        forall k | 0 <= k < |tail| ensures ' ' !in tail[k] { assert tail[k] == ts[k + 1]; }
      }
      JoinCapitalized(tail);
      var cs := CapitalizeTokens(ts);
      assert cs[1..] == CapitalizeTokens(tail);
      RecaseAfterToken(ts[0], Join(tail));
      assert Join(cs) == cs[0] + " " + Join(cs[1..]);
    }
  }

  /** `serialize_name` is the left-to-right recasing of the stripped input. */
  lemma SerializeNameIsRecase(name: string)
    ensures SerializeName(name) == Recase(Strip(name), true)
  {
    var t := Strip(name);
    JoinCapitalized(Split(t));
    JoinSplit(t);
  }

  /**
   * `serialize_name(s)` is `s.strip()` with every character recased: upper case where a token
   * starts, lower case elsewhere. Runs of interior spaces are kept, and the length is that of
   * the stripped input.
   */
  lemma SerializeNameChars(name: string)
    ensures |SerializeName(name)| == |Strip(name)|
    ensures forall i :: 0 <= i < |Strip(name)| ==> SerializeName(name)[i] == CapitalizedAt(Strip(name), i)
  {
    SerializeNameIsRecase(name);
    var t := Strip(name);
    forall i | 0 <= i < |t| ensures SerializeName(name)[i] == CapitalizedAt(t, i) {
      RecaseAt(t, true, i);
    }
  }

  /** The output of `serialize_name` has no leading or trailing whitespace. */
  lemma SerializeNameTrimmed(name: string)
    ensures SerializeName(name) == Strip(SerializeName(name))
    ensures SerializeName(name) == [] <==> Strip(name) == []
  {
    SerializeNameChars(name);
    var t, r := Strip(name), SerializeName(name);
    if r != [] {
      CapitalizedKeepsSpace(t, 0);
      CapitalizedKeepsSpace(t, |t| - 1);
      assert !IsSpace(r[0]) && !IsSpace(r[|r| - 1]);
      StripUnchanged(r);
    }
  }

  /** Recasing a character keeps it whitespace or not. */
  lemma CapitalizedKeepsSpace(t: string, i: nat)
    requires i < |t|
    ensures IsSpace(CapitalizedAt(t, i)) <==> IsSpace(t[i])
  {
  }

  lemma StripUnchanged(s: string)
    requires s != [] && !IsSpace(s[0]) && !IsSpace(s[|s| - 1])
    ensures Strip(s) == s
  {
  }

  lemma {:induction false} RecaseTwice(t: string, atStart: bool)
    ensures Recase(Recase(t, atStart), atStart) == Recase(t, atStart)
  {
    if t != [] {
      var r := Recase(t, atStart);
      assert r[1..] == Recase(t[1..], t[0] == ' ');
      RecaseTwice(t[1..], t[0] == ' ');
    }
  }

  lemma {:induction false} RecaseLower(t: string, atStart: bool)
    ensures Recase(Lower(t), atStart) == Recase(t, atStart)
  {
    if t != [] {
      assert Lower(t)[1..] == Lower(t[1..]);
      RecaseLower(t[1..], t[0] == ' ');
    }
  }

  /** `serialize_name` is idempotent. */
  lemma SerializeNameIdempotent(name: string)
    ensures SerializeName(SerializeName(name)) == SerializeName(name)
  {
    var r := SerializeName(name);
    SerializeNameIsRecase(name);
    SerializeNameTrimmed(name);
    SerializeNameIsRecase(r);
    RecaseTwice(Strip(name), true);
  }

  lemma {:induction false} LeadingSpacesLower(s: string)
    ensures LeadingSpaces(Lower(s)) == LeadingSpaces(s)
  {
    if |s| > 0 && IsSpace(s[0]) {
      assert Lower(s)[1..] == Lower(s[1..]);
      LeadingSpacesLower(s[1..]);
    }
  }

  lemma {:induction false} TrailingSpacesLower(s: string)
    ensures TrailingSpaces(Lower(s)) == TrailingSpaces(s)
  {
    if |s| > 0 && IsSpace(s[|s| - 1]) {
      assert Lower(s)[..|s| - 1] == Lower(s[..|s| - 1]);
      TrailingSpacesLower(s[..|s| - 1]);
    }
  }

  lemma TrimStartLower(s: string)
    ensures TrimStart(Lower(s)) == Lower(TrimStart(s))
  {
    LeadingSpacesLower(s);
  }

  lemma TrimEndLower(s: string)
    ensures TrimEnd(Lower(s)) == Lower(TrimEnd(s))
  {
    TrailingSpacesLower(s);
  }

  /** Lower-casing and stripping commute. */
  lemma StripLower(s: string)
    ensures Strip(Lower(s)) == Lower(Strip(s))
  {
    TrimStartLower(s);
    TrimEndLower(TrimStart(s));
  }

  /** Stripping twice is stripping once. */
  lemma StripIdempotent(s: string)
    ensures Strip(Strip(s)) == Strip(s)
  {
    var t := Strip(s);
    if t != [] { StripUnchanged(t); }
  }

  predicate AllSpace(s: string)
  {
    forall i :: 0 <= i < |s| ==> IsSpace(s[i])
  }

  lemma {:induction false} LeadingSpacesPrefix(pre: string, x: string)
    requires AllSpace(pre)
    ensures LeadingSpaces(pre + x) == |pre| + LeadingSpaces(x)
  {
    if pre != [] {
      assert (pre + x)[1..] == pre[1..] + x;
      LeadingSpacesPrefix(pre[1..], x);
    } else {
      assert pre + x == x;
    }
  }

  lemma {:induction false} LeadingSpacesSuffix(x: string, post: string)
    requires LeadingSpaces(x) < |x|
    ensures LeadingSpaces(x + post) == LeadingSpaces(x)
  {
    if IsSpace(x[0]) {
      assert (x + post)[1..] == x[1..] + post;
      LeadingSpacesSuffix(x[1..], post);
    }
  }

  lemma {:induction false} TrailingSpacesSuffix(x: string, post: string)
    requires AllSpace(post)
    ensures TrailingSpaces(x + post) == TrailingSpaces(x) + |post|
  {
    if post != [] {
      assert (x + post)[..|x + post| - 1] == x + post[..|post| - 1];
      TrailingSpacesSuffix(x, post[..|post| - 1]);
    } else {
      assert x + post == x;
    }
  }

  /** A string is its prefix followed by its suffix. */
  lemma SplitAt(a: string, k: nat)
    requires k <= |a|
    ensures a == a[..k] + a[k..]
  {
  }

  /** Slicing a concatenation inside its first part. */
  lemma SlicesOfConcat(a: string, b: string, k: nat)
    requires k <= |a|
    ensures (a + b)[k..] == a[k..] + b && (a + b)[..k] == a[..k]
  {
  }

  lemma StripSuffixSpaceText(x: string, post: string)
    requires AllSpace(post) && LeadingSpaces(x) < |x|
    ensures Strip(x + post) == Strip(x)
  {
    LeadingSpacesSuffix(x, post);
    var t := TrimStart(x);
    SlicesOfConcat(x, post, LeadingSpaces(x));
    TrailingSpacesSuffix(t, post);
    SlicesOfConcat(t, post, |t| - TrailingSpaces(t));
  }

  lemma StripSuffixSpaceBlank(x: string, post: string)
    requires AllSpace(post) && LeadingSpaces(x) == |x|
    ensures Strip(x + post) == Strip(x)
  {
    LeadingSpacesPrefix(x, post);
    assert post + [] == post;
    LeadingSpacesPrefix(post, []);
    assert TrimStart(x + post) == [];
    assert TrimStart(x) == [];
  }

  lemma StripSuffixSpace(x: string, post: string)
    requires AllSpace(post)
    ensures Strip(x + post) == Strip(x)
  {
    if LeadingSpaces(x) < |x| {
      StripSuffixSpaceText(x, post);
    } else {
      StripSuffixSpaceBlank(x, post);
    }
  }

  lemma LeadingAllSpace(s: string)
    ensures AllSpace(s[..LeadingSpaces(s)])
  {
  }

  lemma TrailingAllSpace(s: string)
    ensures AllSpace(s[|s| - TrailingSpaces(s)..])
  {
  }

  lemma StripSplits(s: string)
    ensures var t := TrimStart(s);
      s == s[..LeadingSpaces(s)] + Strip(s) + t[|t| - TrailingSpaces(t)..]
  {
    var lead := LeadingSpaces(s);
    var keep := |s[lead..]| - TrailingSpaces(s[lead..]);
    SplitTwice(s, lead, keep);
  }

  /** A string is cut into three at `i` and at `j` further on. */
  lemma SplitTwice(s: string, i: nat, j: nat)
    requires i <= |s| && j <= |s| - i
    ensures s == s[..i] + s[i..][..j] + s[i..][j..]
  {
    SplitAt(s, i);
    SplitAt(s[i..], j);
    assert s[..i] + (s[i..][..j] + s[i..][j..]) == s[..i] + s[i..][..j] + s[i..][j..];
  }

  /**
   * The input is whitespace, then what `strip` returns, then whitespace; with `Strip`'s own
   * ensures this leaves exactly one possible result.
   */
  lemma StripIsCore(s: string)
    ensures exists pre, post :: AllSpace(pre) && AllSpace(post) && s == pre + Strip(s) + post
  {
    var t := TrimStart(s);
    var pre, post := s[..LeadingSpaces(s)], t[|t| - TrailingSpaces(t)..];
    LeadingAllSpace(s);
    TrailingAllSpace(t);
    StripSplits(s);
    assert AllSpace(pre) && AllSpace(post) && s == pre + Strip(s) + post;
  }

  /** Whitespace around the text does not change what `strip` returns. */
  lemma StripOuterSpace(pre: string, x: string, post: string)
    requires AllSpace(pre) && AllSpace(post)
    ensures Strip(pre + x + post) == Strip(x)
  {
    assert pre + x + post == pre + (x + post);
    LeadingSpacesPrefix(pre, x + post);
    assert TrimStart(pre + x + post) == TrimStart(x + post);
    StripSuffixSpace(x, post);
  }

  /** Whitespace around a name does not change its serialised form. */
  lemma SerializeNameIgnoresOuterSpace(pre: string, name: string, post: string)
    requires AllSpace(pre) && AllSpace(post)
    ensures SerializeName(pre + name + post) == SerializeName(name)
  {
    StripOuterSpace(pre, name, post);
  }

  /** `serialize_name` ignores the letter case of its input; the empty name stays empty. */
  lemma SerializeNameIgnoresCase(name: string)
    ensures SerializeName(Lower(name)) == SerializeName(name)
    ensures SerializeName("") == ""
  {
    StripLower(name);
    SerializeNameIsRecase(name);
    SerializeNameIsRecase(Lower(name));
    RecaseLower(Strip(name), true);
    SerializeNameIsRecase("");
  }

  /** For a name with no outer whitespace, `serialize_name` recases it character by character. */
  lemma SerializeNameOfTrimmed(core: string)
    requires core != [] && !IsSpace(core[0]) && !IsSpace(core[|core| - 1])
    ensures |SerializeName(core)| == |core|
    ensures forall i :: 0 <= i < |core| ==> SerializeName(core)[i] == CapitalizedAt(core, i)
  {
    StripUnchanged(core);
    SerializeNameChars(core);
  }

  lemma AliceHead(core: string)
    requires core == "aLICE   bOB"
    ensures |SerializeName(core)| == 11
    ensures SerializeName(core)[..5] == "Alice"
  {
    SerializeNameOfTrimmed(core);
    var r := SerializeName(core);
    assert r[0] == 'A' && r[1] == 'l' && r[2] == 'i' && r[3] == 'c' && r[4] == 'e';
  }

  lemma AliceTail(core: string)
    requires core == "aLICE   bOB"
    ensures |SerializeName(core)| == 11
    ensures SerializeName(core)[5..] == "   Bob"
  {
    SerializeNameOfTrimmed(core);
    var r := SerializeName(core);
    assert r[5] == ' ' && r[6] == ' ' && r[7] == ' ';
    assert r[8] == 'B' && r[9] == 'o' && r[10] == 'b';
  }

  lemma AliceRecased(core: string)
    requires core == "aLICE   bOB"
    ensures SerializeName(core) == "Alice   Bob"
  {
    AliceHead(core);
    AliceTail(core);
    var r := SerializeName(core);
    assert r == r[..5] + r[5..];
  }

  /** Interior runs of spaces survive: " aLICE   bOB " serialises to "Alice   Bob". */
  lemma SerializeNameExample(space: string, core: string)
    requires space == " " && core == "aLICE   bOB"
    ensures SerializeName(space + core + space) == "Alice   Bob"
  {
    SerializeNameIgnoresOuterSpace(space, core, space);
    AliceRecased(core);
  }

  // ---------------------------------------------------------------- serialize_name_entries

  /** `row.get("name", "")` when that is a string; None when the field holds something else. */
  function NameOf(row: Doc): Option<string>
  {
    if "name" !in row then Some("")
    else match row["name"]
      case Str(s) => Some(s)
      case _ => None
  }

  /** `out` is `row` with only its name serialised; a missing name becomes the serialised "". */
  ghost predicate RowSerialized(row: Doc, out: Doc)
  {
    && NameOf(row).Some?
    && out.Keys == row.Keys + {"name"}
    && out["name"] == Str(SerializeName(NameOf(row).value))
    && forall f :: f in row && f != "name" ==> out[f] == row[f]
  }

  /** `{**row, "name": serialize_name(n)}`. */
  function WithSerializedName(row: Doc, n: string): (out: Doc)
    requires NameOf(row) == Some(n)
    ensures RowSerialized(row, out)
  {
    row["name" := Str(SerializeName(n))]
  }

  /**
   * `serialize_name_entries`: every row with its `name` replaced by the serialised name.
   * None stands for the exception `serialize_name` raises on a name that is not a string.
   */
  function SerializeNameEntries(rows: seq<Doc>): (r: Option<seq<Doc>>)
    ensures r.Some? <==> forall i :: 0 <= i < |rows| ==> NameOf(rows[i]).Some?
    ensures r.Some? ==> |r.value| == |rows|
    ensures r.Some? ==> forall i :: 0 <= i < |rows| ==> RowSerialized(rows[i], r.value[i])
  {
    if rows == [] then Some([])
    else
      var tail := rows[1..];
      match NameOf(rows[0])
      case None => None
      case Some(n) =>
        match SerializeNameEntries(tail)
        case None => None
        case Some(rest) =>
          Some([WithSerializedName(rows[0], n)] + rest)
  }

  // ---------------------------------------------------------------- password helpers

  /** bcrypt's random salt, supplied by the caller. */
  type Salt = nat

  /** `encode_password(bcrypt.hashpw(p, salt))`: not modelled, so a parameter. */
  type Hasher = (string, Salt) -> string

  /** `bcrypt.checkpw(p, decode_password(digest))`: not modelled, so a parameter. */
  type Checker = (string, string) -> bool

  /** `hash_password`: no digest for the empty password. */
  function HashPassword(hashpw: Hasher, password: string, salt: Salt): (r: Option<string>)
    ensures r.None? <==> password == ""
    ensures r.Some? ==> r.value == hashpw(password, salt)
  {
    if password != "" then Some(hashpw(password, salt)) else None
  }

  /** Python truthiness of an optional string: present and non-empty. */
  predicate Truthy(s: Option<string>)
  {
    s.Some? && s.value != ""
  }

  /** `check_password`: false when either side is missing or empty, the bcrypt check otherwise. */
  function CheckPassword(checkpw: Checker, input: Option<string>, encoded: Option<string>): (r: bool)
    ensures !Truthy(input) || !Truthy(encoded) ==> !r
    ensures Truthy(input) && Truthy(encoded) ==> r == checkpw(input.value, encoded.value)
  {
    if Truthy(input) && Truthy(encoded) then checkpw(input.value, encoded.value) else false
  }
}
