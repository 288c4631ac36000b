/**
 * The MAC-address check of the music player client, `_validate_mac_address`:
 * a type check on the argument, lower-casing, then the regular expression
 *
 *     [0-9a-f]{2}([-:]?)[0-9a-f]{2}(\1[0-9a-f]{2}){4}$
 *
 * anchored at the start of the string (`re.match`). The matcher below follows the
 * pattern piece by piece; `MacText` is an independent description of the accepted
 * language (six two-digit groups joined by one separator), and the lemmas prove the
 * two agree.
 */
module MacValidation {
  import opened Results

  /** The argument as Python sees it: a `str`, or a value of another type. */
  datatype Argument = Str(s: string) | NonStr(typeName: string)

  /** The client error raised when the argument is not a string. */
  datatype TypeMismatch = NotAString(typeName: string)

  predicate IsHexDigit(c: char)
  {
    '0' <= c <= '9' || 'a' <= c <= 'f'
  }

  function LowerChar(c: char): char
  {
    if 'A' <= c <= 'Z' then (c as int - 'A' as int + 'a' as int) as char else c
  }

  /** `str.lower()`, on the characters that can matter to the pattern (see README). */
  function Lower(s: string): (r: string)
    ensures |r| == |s|
    ensures forall i :: 0 <= i < |s| ==> r[i] == LowerChar(s[i])
  {
    if s == [] then [] else [LowerChar(s[0])] + Lower(s[1..])
  }

  // ---------------------------------------------------------------------------
  // The matcher, one function per piece of the pattern

  /** `[0-9a-f]{2}` at position `i`. */
  predicate HexPairAt(t: string, i: nat)
  {
    i + 2 <= |t| && IsHexDigit(t[i]) && IsHexDigit(t[i + 1])
  }

  /**
   * The group `([-:]?)` at position `i`. The `?` is greedy; backtracking to the empty
   * capture after taking a `-` or `:` can never succeed, because the `[0-9a-f]{2}`
   * that follows would then have to start on that separator.
   */
  function CaptureSeparator(t: string, i: nat): (sep: string)
    ensures sep == "" || sep == ":" || sep == "-"
  {
    if i < |t| && (t[i] == '-' || t[i] == ':') then [t[i]] else ""
  }

  /** The back-reference `\1` at position `i`. */
  predicate SeparatorAt(t: string, i: nat, sep: string)
  {
    i + |sep| <= |t| && t[i..i + |sep|] == sep
  }

  /** `(\1[0-9a-f]{2}){n}` from position `i`: the position after the last group, if it matches. */
  function RepeatedGroupsEnd(t: string, i: nat, sep: string, n: nat): Option<nat>
    decreases n
  {
    if n == 0 then Some(i)
    else if SeparatorAt(t, i, sep) && HexPairAt(t, i + |sep|) then
      RepeatedGroupsEnd(t, i + |sep| + 2, sep, n - 1)
    else None
  }

  /** Python's `$`: the end of the string, or just before a newline that ends it. */
  predicate AtEnd(t: string, i: nat)
  {
    i == |t| || (i + 1 == |t| && t[i] == '\n')
  }

  /** `re.match` of the whole pattern against `t`. */
  predicate MatchesMacPattern(t: string)
  {
    && HexPairAt(t, 0)
    && var sep := CaptureSeparator(t, 2);
       && HexPairAt(t, 2 + |sep|)
       && var e := RepeatedGroupsEnd(t, 4 + |sep|, sep, 4);
          e.Some? && AtEnd(t, e.value)
  }

  /**
   * `_validate_mac_address`: raises for a non-string, otherwise tells whether the
   * lower-cased string matches.
   */
  function ValidateMacAddress(arg: Argument): (r: Result<bool, TypeMismatch>)
    ensures r.Failure? <==> arg.NonStr?
    ensures arg.NonStr? ==> r.error == NotAString(arg.typeName)
  {
    match arg
    case NonStr(typeName) => Failure(NotAString(typeName))
    case Str(s) => Success(MatchesMacPattern(Lower(s)))
  }

  // ---------------------------------------------------------------------------
  // The accepted language, described without the matcher

  predicate IsSeparator(sep: string)
  {
    sep == "" || sep == ":" || sep == "-"
  }

  predicate IsHexPair(g: string)
  {
    |g| == 2 && IsHexDigit(g[0]) && IsHexDigit(g[1])
  }

  /** What `$` lets through after the address: nothing, or one newline. */
  predicate IsLineEnd(nl: string)
  {
    nl == "" || nl == "\n"
  }

  /** `sep + g` for every group `g`, concatenated in order. */
  function Prefixed(groups: seq<string>, sep: string): string
  {
    if groups == [] then "" else sep + groups[0] + Prefixed(groups[1..], sep)
  }

  /** Six groups joined by one separator. */
  function MacText(groups: seq<string>, sep: string): string
    requires |groups| == 6
  {
    groups[0] + Prefixed(groups[1..], sep)
  }

  /** `t` is six hex pairs joined by one separator, followed by an optional newline. */
  predicate Spells(t: string, groups: seq<string>, sep: string, nl: string)
  {
    && |groups| == 6
    && (forall k :: 0 <= k < 6 ==> IsHexPair(groups[k]))
    && IsSeparator(sep)
    && IsLineEnd(nl)
    && t == MacText(groups, sep) + nl
  }

  // ---------------------------------------------------------------------------
  // The matcher accepts exactly that language

  /** The first separator-prefixed pair of a run, and what follows it. */
  lemma PrefixedStep(pre: string, groups: seq<string>, sep: string, post: string)
    requires groups != [] && IsHexPair(groups[0])
    ensures var t := pre + Prefixed(groups, sep) + post;
            && t == (pre + sep + groups[0]) + Prefixed(groups[1..], sep) + post
            && |Prefixed(groups, sep)| == |sep| + 2 + |Prefixed(groups[1..], sep)|
            && SeparatorAt(t, |pre|, sep)
            && HexPairAt(t, |pre| + |sep|)
  {
    var t := pre + Prefixed(groups, sep) + post;
    var pre' := pre + sep + groups[0];
    assert t == pre' + Prefixed(groups[1..], sep) + post;
    assert t[|pre|..|pre| + |sep|] == sep;
    assert t[|pre| + |sep|] == groups[0][0] && t[|pre| + |sep| + 1] == groups[0][1];
  }

  /** The repeated back-reference group matches every run of separator-prefixed pairs. */
  lemma {:induction false} PrefixedIsMatched(pre: string, groups: seq<string>, sep: string, post: string)
    requires forall k :: 0 <= k < |groups| ==> IsHexPair(groups[k])
    ensures RepeatedGroupsEnd(pre + Prefixed(groups, sep) + post, |pre|, sep, |groups|)
            == Some(|pre| + |Prefixed(groups, sep)|)
    decreases groups
  {
    if groups != [] {
      PrefixedStep(pre, groups, sep, post);
      PrefixedIsMatched(pre + sep + groups[0], groups[1..], sep, post);
    }
  }

  /** The groups the repeated back-reference group consumed, in order. */
  function GroupsFrom(t: string, i: nat, sep: string, n: nat): seq<string>
    decreases n
  {
    if n == 0 then []
    else if SeparatorAt(t, i, sep) && HexPairAt(t, i + |sep|) then
      [t[i + |sep|..i + |sep| + 2]] + GroupsFrom(t, i + |sep| + 2, sep, n - 1)
    else []
  }

  /** One round of the repeated group, when the whole repetition matches. */
  lemma MatchedStep(t: string, i: nat, sep: string, n: nat)
    requires n > 0 && RepeatedGroupsEnd(t, i, sep, n).Some?
    ensures SeparatorAt(t, i, sep) && HexPairAt(t, i + |sep|)
    ensures RepeatedGroupsEnd(t, i, sep, n) == RepeatedGroupsEnd(t, i + |sep| + 2, sep, n - 1)
    ensures GroupsFrom(t, i, sep, n) == [t[i + |sep|..i + |sep| + 2]] + GroupsFrom(t, i + |sep| + 2, sep, n - 1)
  {
  }

  /** Where a matching repetition ends: two characters a round without a separator, three with one. */
  lemma {:induction false} MatchedEnd(t: string, i: nat, sep: string, n: nat)
    requires i <= |t|
    requires RepeatedGroupsEnd(t, i, sep, n).Some?
    ensures var e := RepeatedGroupsEnd(t, i, sep, n).value;
            && i <= e <= |t|
            && (|sep| == 0 ==> e == i + 2 * n)
            && (|sep| == 1 ==> e == i + 3 * n)
    decreases n
  {
    if n > 0 {
      MatchedStep(t, i, sep, n);
      MatchedEnd(t, i + |sep| + 2, sep, n - 1);
    }
  }

  /** What a matching repetition consumed is its groups, each prefixed by the separator. */
  lemma {:induction false} MatchedGroups(t: string, i: nat, sep: string, n: nat)
    requires i <= |t|
    requires RepeatedGroupsEnd(t, i, sep, n).Some?
    ensures var e := RepeatedGroupsEnd(t, i, sep, n).value;
            var groups := GroupsFrom(t, i, sep, n);
            && i <= e <= |t|
            && |groups| == n
            && (forall k :: 0 <= k < n ==> IsHexPair(groups[k]))
            && t[i..e] == Prefixed(groups, sep)
    decreases n
  {
    MatchedEnd(t, i, sep, n);
    if n > 0 {
      MatchedStep(t, i, sep, n);
      var j := i + |sep| + 2;
      MatchedGroups(t, j, sep, n - 1);
      var e := RepeatedGroupsEnd(t, j, sep, n - 1).value;
      var g := t[i + |sep|..j];
      var rest := GroupsFrom(t, j, sep, n - 1);
      PrefixedCons(g, rest, sep);
      SliceConcat(t, i, i + |sep|, j);
      SliceConcat(t, i, j, e);
    }
  }

  /** Every character a matching repetition consumed is a hex digit or the separator. */
  lemma {:induction false} MatchedChars(t: string, i: nat, sep: string, n: nat)
    requires i <= |t|
    requires RepeatedGroupsEnd(t, i, sep, n).Some?
    ensures RepeatedGroupsEnd(t, i, sep, n).value <= |t|
    ensures forall p :: i <= p < RepeatedGroupsEnd(t, i, sep, n).value ==> IsHexDigit(t[p]) || t[p] in sep
    decreases n
  {
    MatchedEnd(t, i, sep, n);
    if n > 0 {
      MatchedStep(t, i, sep, n);
      var j := i + |sep| + 2;
      MatchedChars(t, j, sep, n - 1);
      forall p | i <= p < j
        ensures IsHexDigit(t[p]) || t[p] in sep
      {
        if p < i + |sep| {
          assert t[p] == t[i..i + |sep|][p - i];
        }
      }
    }
  }

  lemma SliceConcat(t: string, a: nat, b: nat, c: nat)
    requires a <= b <= c <= |t|
    ensures t[a..c] == t[a..b] + t[b..c]
  {
  }

  lemma ConcatAssociates(a: string, b: string, c: string, d: string)
    ensures a + b + c + d == a + (b + c + d)
  {
  }

  /** Two leading pairs, the separator between them, four prefixed pairs and a line end spell an address. */
  lemma AssembleSpelling(t: string, sep: string, e: nat, rest: seq<string>) returns (groups: seq<string>, nl: string)
    requires IsSeparator(sep) && 4 + |sep| <= e <= |t|
    requires HexPairAt(t, 0) && HexPairAt(t, 2 + |sep|) && t[2..2 + |sep|] == sep
    requires |rest| == 4 && forall k :: 0 <= k < 4 ==> IsHexPair(rest[k])
    requires t[4 + |sep|..e] == Prefixed(rest, sep)
    requires IsLineEnd(t[e..])
    ensures Spells(t, groups, sep, nl)
  {
    var i := 4 + |sep|;
    var g0, g1 := t[0..2], t[2 + |sep|..i];
    groups := [g0, g1] + rest;
    nl := t[e..];
    var tail := Prefixed(rest, sep);
    assert forall k :: 0 <= k < 6 ==> IsHexPair(groups[k]) by {
      assert IsHexPair(g0) && IsHexPair(g1);
      assert forall k :: 2 <= k < 6 ==> groups[k] == rest[k - 2];
    }
    assert groups[0] == g0 && groups[1..] == [g1] + rest;
    assert ([g1] + rest)[0] == g1 && ([g1] + rest)[1..] == rest;
    assert MacText(groups, sep) == g0 + (sep + g1 + tail);
    assert t[0..e] == g0 + sep + g1 + tail by {
      SliceConcat(t, 0, 2, 2 + |sep|);
      SliceConcat(t, 0, 2 + |sep|, i);
      SliceConcat(t, 0, i, e);
    }
    ConcatAssociates(g0, sep, g1, tail);
    assert t == t[0..e] + nl by {
      SliceConcat(t, 0, e, |t|);
    }
  }

  /** The groups, separator and line end an accepted string is made of. */
  lemma MatchSpelling(t: string) returns (groups: seq<string>, sep: string, nl: string)
    requires MatchesMacPattern(t)
    ensures Spells(t, groups, sep, nl)
  {
    var e;
    sep, e := MatchEnd(t);
    MatchedGroups(t, 4 + |sep|, sep, 4);
    groups, nl := AssembleSpelling(t, sep, e, GroupsFrom(t, 4 + |sep|, sep, 4));
  }

  /** Soundness: whatever the matcher accepts is six groups joined by one separator. */
  lemma MatchIsSpelled(t: string)
    requires MatchesMacPattern(t)
    ensures exists groups, sep, nl :: Spells(t, groups, sep, nl)
  {
    var groups, sep, nl := MatchSpelling(t);
  }

  /** Completeness: six groups joined by one separator are accepted. */
  lemma SpelledIsMatched(t: string, groups: seq<string>, sep: string, nl: string)
    requires Spells(t, groups, sep, nl)
    ensures MatchesMacPattern(t)
  {
    var pre := groups[0] + sep + groups[1];
    assert groups[1..][0] == groups[1] && groups[1..][1..] == groups[2..];
    assert t == pre + Prefixed(groups[2..], sep) + nl;
    assert t[0] == groups[0][0] && t[1] == groups[0][1];
    assert t[2] == if sep == "" then groups[1][0] else sep[0];
    assert CaptureSeparator(t, 2) == sep;
    assert t[2 + |sep|] == groups[1][0] && t[3 + |sep|] == groups[1][1];
    PrefixedIsMatched(pre, groups[2..], sep, nl);
  }

  /** Where the match of an accepted string ends, before the optional newline. */
  lemma MatchEnd(t: string) returns (sep: string, e: nat)
    requires MatchesMacPattern(t)
    ensures sep == CaptureSeparator(t, 2) && HexPairAt(t, 0) && HexPairAt(t, 2 + |sep|)
    ensures RepeatedGroupsEnd(t, 4 + |sep|, sep, 4) == Some(e) && AtEnd(t, e)
    ensures (sep == "" && e == 12) || (|sep| == 1 && e == 17)
    ensures IsSeparator(sep) && t[2..2 + |sep|] == sep && IsLineEnd(t[e..])
  {
    sep := CaptureSeparator(t, 2);
    e := RepeatedGroupsEnd(t, 4 + |sep|, sep, 4).value;
    MatchedEnd(t, 4 + |sep|, sep, 4);
    assert t[e..] == [] || t[e..] == [t[e]];
  }

  /** An accepted string is 12 or 17 characters long, plus one when it ends in a newline. */
  lemma AcceptedLength(t: string)
    requires MatchesMacPattern(t)
    ensures |t| == 12 || |t| == 13 || |t| == 17 || |t| == 18
    ensures (|t| == 13 || |t| == 18) <==> t[|t| - 1] == '\n'
  {
    var sep, e := MatchEnd(t);
    MatchedChars(t, 4 + |sep|, sep, 4);
    assert IsHexDigit(t[e - 1]);
  }

  /** Every character of an accepted string that is not a hex digit is the separator or the final newline. */
  lemma AcceptedChars(t: string)
    requires MatchesMacPattern(t)
    ensures forall p :: 0 <= p < |t| && !IsHexDigit(t[p]) ==>
              (p == |t| - 1 && t[p] == '\n') || ((t[2] == ':' || t[2] == '-') && t[p] == t[2])
  {
    var sep, e := MatchEnd(t);
    var i := 4 + |sep|;
    MatchedChars(t, i, sep, 4);
    assert sep != "" ==> t[2] == sep[0];
    forall p | 0 <= p < |t| && !IsHexDigit(t[p])
      ensures (p == |t| - 1 && t[p] == '\n') || ((t[2] == ':' || t[2] == '-') && t[p] == t[2])
    {
      if p < i {
        assert p == 2 && sep != "";
      } else if p < e {
        assert t[p] in sep;
      }
    }
  }

  /** An accepted string: its possible lengths, and its non-hex characters. */
  lemma AcceptedShape(t: string)
    requires MatchesMacPattern(t)
    ensures |t| == 12 || |t| == 13 || |t| == 17 || |t| == 18
    ensures (|t| == 13 || |t| == 18) <==> t[|t| - 1] == '\n'
    ensures forall p :: 0 <= p < |t| && !IsHexDigit(t[p]) ==>
              (p == |t| - 1 && t[p] == '\n') || ((t[2] == ':' || t[2] == '-') && t[p] == t[2])
  {
    AcceptedLength(t);
    AcceptedChars(t);
  }

  // ---------------------------------------------------------------------------
  // The validator

  lemma {:induction false} LowerIsIdempotent(s: string)
    ensures Lower(Lower(s)) == Lower(s)
  {
    if s != [] {
      LowerIsIdempotent(s[1..]);
      assert Lower(s)[1..] == Lower(s[1..]);
    }
  }

  /** Lower-casing leaves a string without upper-case letters unchanged. */
  lemma LowerKeepsLowerCase(s: string)
    requires forall i :: 0 <= i < |s| ==> !('A' <= s[i] <= 'Z')
    ensures Lower(s) == s
  {
  }

  /** Validation is case-insensitive: a string and its lower-case form get the same answer. */
  lemma ValidationIgnoresCase(s: string)
    ensures ValidateMacAddress(Str(s)) == ValidateMacAddress(Str(Lower(s)))
  {
    LowerIsIdempotent(s);
  }

  /** A string is valid exactly when its lower-case form is six hex pairs joined by one separator. */
  lemma ValidIffSpelled(s: string)
    ensures ValidateMacAddress(Str(s)) == Success(true)
            <==> exists groups, sep, nl :: Spells(Lower(s), groups, sep, nl)
  {
    assert ValidateMacAddress(Str(s)) == Success(MatchesMacPattern(Lower(s)));
    if MatchesMacPattern(Lower(s)) {
      MatchIsSpelled(Lower(s));
    } else if exists groups, sep, nl :: Spells(Lower(s), groups, sep, nl) {
      var groups, sep, nl :| Spells(Lower(s), groups, sep, nl);
      SpelledIsMatched(Lower(s), groups, sep, nl);
    }
  }

  /** One step of `Prefixed`: the first group, then the rest. */
  lemma PrefixedCons(g: string, rest: seq<string>, sep: string)
    ensures Prefixed([g] + rest, sep) == sep + g + Prefixed(rest, sep)
  {
    assert ([g] + rest)[1..] == rest;
  }

  /** One step of `Prefixed` inside a sequence: group `k`, then the groups after it. */
  lemma PrefixedFrom(groups: seq<string>, k: nat, sep: string)
    requires k < |groups|
    ensures Prefixed(groups[k..], sep) == sep + groups[k] + Prefixed(groups[k + 1..], sep)
  {
    assert groups[k..][0] == groups[k] && groups[k..][1..] == groups[k + 1..];
  }

  /** Moving one separator-prefixed group out of the unwritten rest into the written prefix. */
  lemma JoinStep(written: string, sep: string, g: string, rest: string)
    ensures written + (sep + g + rest) == written + sep + g + rest
  {
  }

  /** Six groups written out with their separators. */
  lemma MacTextOfSix(g0: string, g1: string, g2: string, g3: string, g4: string, g5: string, sep: string)
    ensures MacText([g0, g1, g2, g3, g4, g5], sep) == g0 + sep + g1 + sep + g2 + sep + g3 + sep + g4 + sep + g5
  {
    var gs := [g0, g1, g2, g3, g4, g5];
    PrefixedFrom(gs, 1, sep);
    PrefixedFrom(gs, 2, sep);
    PrefixedFrom(gs, 3, sep);
    PrefixedFrom(gs, 4, sep);
    PrefixedFrom(gs, 5, sep);
    assert gs[6..] == [];
    var w1 := g0 + sep + g1;
    var w2 := w1 + sep + g2;
    var w3 := w2 + sep + g3;
    var w4 := w3 + sep + g4;
    var w5 := w4 + sep + g5;
    JoinStep(g0, sep, g1, Prefixed(gs[2..], sep));
    JoinStep(w1, sep, g2, Prefixed(gs[3..], sep));
    JoinStep(w2, sep, g3, Prefixed(gs[4..], sep));
    JoinStep(w3, sep, g4, Prefixed(gs[5..], sep));
    JoinStep(w4, sep, g5, Prefixed(gs[6..], sep));
    assert w5 + "" == w5;
  }

  /** `02:00:00:x:y:z` joins six groups with `:`. */
  lemma GeneratedTestAddressSpells(x: string, y: string, z: string)
    requires IsHexPair(x) && IsHexPair(y) && IsHexPair(z)
    ensures Spells("02:00:00:" + x + ":" + y + ":" + z, ["02", "00", "00", x, y, z], ":", "")
  {
    MacTextOfSix("02", "00", "00", x, y, z, ":");
    assert "02" + ":" + "00" + ":" + "00" + ":" == "02:00:00:";
  }

  /** Every address the client's test generates, `02:00:00:%02x:%02x:%02x`, is accepted. */
  lemma AcceptsGeneratedTestAddress(x: string, y: string, z: string)
    requires IsHexPair(x) && IsHexPair(y) && IsHexPair(z)
    ensures ValidateMacAddress(Str("02:00:00:" + x + ":" + y + ":" + z)) == Success(true)
  {
    var t := "02:00:00:" + x + ":" + y + ":" + z;
    GeneratedTestAddressSpells(x, y, z);
    SpelledIsMatched(t, ["02", "00", "00", x, y, z], ":", "");
    LowerKeepsLowerCase(t);
  }

  /** A valid address is never empty. */
  lemma ValidIsNonEmpty(s: string)
    requires ValidateMacAddress(Str(s)) == Success(true)
    ensures |s| >= 12
  {
    AcceptedLength(Lower(s));
  }

  /** A string holding both a `:` and a `-`, such as `aa:bb-cc:dd:ee:ff`, is rejected. */
  lemma RejectsMixedSeparators(s: string, p: nat, q: nat)
    requires p < |s| && q < |s| && s[p] == ':' && s[q] == '-'
    ensures ValidateMacAddress(Str(s)) == Success(false)
  {
    var t := Lower(s);
    assert t[p] == ':' && t[q] == '-';
    if MatchesMacPattern(t) {
      AcceptedShape(t);
      assert false;
    }
  }

  /** A non-hex word is rejected rather than raising. */
  lemma RejectsWord(t: string)
    requires t == "potato"
    ensures ValidateMacAddress(Str(t)) == Success(false)
  {
    assert Lower(t)[0] == 'p';
  }
}
