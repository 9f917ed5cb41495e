/**
 * The account table of fronted/src/pages/Admin.tsx: the search box that
 * narrows the listing to keys containing the query, ignoring case, and the
 * "Total Pokémon" figure summed over the listing.
 */
module Admin {
  import Seqs
  import Server

  /** ECMAScript WhiteSpace and LineTerminator code points: what `String.prototype.trim` strips. */
  predicate IsSpace(c: char)
  {
    var n := c as int;
    n == 0x09 || n == 0x0A || n == 0x0B || n == 0x0C || n == 0x0D || n == 0x20 || n == 0xA0
    || n == 0x1680 || (0x2000 <= n <= 0x200A) || n == 0x2028 || n == 0x2029 || n == 0x202F
    || n == 0x205F || n == 0x3000 || n == 0xFEFF
  }

  ghost predicate AllSpace(s: string)
  {
    forall i :: 0 <= i < |s| ==> IsSpace(s[i])
  }

  /** Index of the first character at or after `i` that is not white space, or `|s|`. */
  function SkipSpace(s: string, i: nat): (j: nat)
    requires i <= |s|
    ensures i <= j <= |s|
    ensures forall k :: i <= k < j ==> IsSpace(s[k])
    ensures j < |s| ==> !IsSpace(s[j])
    decreases |s| - i
  {
    if i < |s| && IsSpace(s[i]) then SkipSpace(s, i + 1) else i
  }

  /**
   * Index just past the last character before `j` that is not white space,
   * looking no further back than `lo`: `lo` when `s[lo..j]` is all white space.
   */
  function SkipSpaceBack(s: string, lo: nat, j: nat): (i: nat)
    requires lo <= j <= |s|
    ensures lo <= i <= j
    ensures forall k :: i <= k < j ==> IsSpace(s[k])
    ensures i > lo ==> !IsSpace(s[i - 1])
    decreases j
  {
    if j > lo && IsSpace(s[j - 1]) then SkipSpaceBack(s, lo, j - 1) else j
  }

  /**
   * `String.prototype.trim`: the slice `s[a..b]` between the leading and the
   * trailing white space. Everything cut off is white space, and a non-empty
   * result neither starts nor ends with it.
   */
  function Trim(s: string): (r: string)
    ensures exists a, b ::
      && 0 <= a <= b <= |s| && r == s[a..b]
      && (forall k :: 0 <= k < a ==> IsSpace(s[k]))
      && (forall k :: b <= k < |s| ==> IsSpace(s[k]))
    ensures r != [] ==> !IsSpace(r[0]) && !IsSpace(r[|r| - 1])
  {
    var a := SkipSpace(s, 0);
    var b := SkipSpaceBack(s, a, |s|);
    assert b > a ==> s[a..b][0] == s[a] && s[a..b][b - a - 1] == s[b - 1];
    s[a..b]
  }

  /** `searchQuery.trim() === ''` holds exactly for a query made only of white space. */
  lemma BlankIsAllSpace(q: string)
    ensures Trim(q) == "" <==> AllSpace(q)
  {
    var a := SkipSpace(q, 0);
    var b := SkipSpaceBack(q, a, |q|);
    if b > a {
      assert !IsSpace(q[a]);
    }
  }

  /** `toLowerCase` on the ASCII letters. */
  function LowerChar(c: char): (r: char)
    ensures 'A' <= c <= 'Z' ==> r as int == c as int + 32
    ensures !('A' <= c <= 'Z') ==> r == c
  {
    if 'A' <= c <= 'Z' then (c as int + 32) as char else c
  }

  /** `toLowerCase` on ASCII: same length, each letter lowered, and no upper-case letter left. */
  function Lower(s: string): (r: string)
    ensures |r| == |s| && forall i :: 0 <= i < |s| ==> r[i] == LowerChar(s[i])
    ensures forall i :: 0 <= i < |r| ==> !('A' <= r[i] <= 'Z')
  {
    seq(|s|, i requires 0 <= i < |s| => LowerChar(s[i]))
  }

  predicate OccursAt(haystack: string, needle: string, i: int)
  {
    0 <= i && i + |needle| <= |haystack| && haystack[i..i + |needle|] == needle
  }

  /** `haystack.includes(needle)`: the needle occurs at some position (the empty needle everywhere). */
  predicate Contains(haystack: string, needle: string)
    ensures Contains(haystack, needle) ==> |needle| <= |haystack|
    ensures needle == [] || needle == haystack ==> Contains(haystack, needle)
  {
    assert needle == [] || needle == haystack ==> OccursAt(haystack, needle, 0);
    exists i | 0 <= i <= |haystack| - |needle| :: OccursAt(haystack, needle, i)
  }

  /**
   * The `searchQuery` effect: a blank query shows every account; otherwise
   * the accounts whose lower-cased key contains the lower-cased query, which
   * is not trimmed, in listing order.
   */
  function FilterUsers(users: seq<Server.KeyRow>, query: string): (r: seq<Server.KeyRow>)
    ensures AllSpace(query) ==> r == users
    ensures !AllSpace(query) ==> forall u :: u in r <==> u in users && Contains(Lower(u.apiKey), Lower(query))
    ensures !AllSpace(query) ==> r == Seqs.Filter(users, (u: Server.KeyRow) => Contains(Lower(u.apiKey), Lower(query)))
    ensures Seqs.IsSubseq(r, users)
  {
    BlankIsAllSpace(query);
    if Trim(query) == "" then
      Seqs.SubseqOfSelf(users);
      users
    else
      Seqs.Filter(users, (u: Server.KeyRow) => Contains(Lower(u.apiKey), Lower(query)))
  }

  /** Lower-casing the query first changes nothing: the search ignores case on both sides. */
  lemma FilterIgnoresCase(users: seq<Server.KeyRow>, query: string)
    ensures FilterUsers(users, Lower(query)) == FilterUsers(users, query)
  {
    assert Lower(Lower(query)) == Lower(query);
    assert AllSpace(Lower(query)) <==> AllSpace(query) by {
      forall i | 0 <= i < |query| ensures IsSpace(Lower(query)[i]) <==> IsSpace(query[i]) {
      }
    }
    BlankIsAllSpace(query);
    BlankIsAllSpace(Lower(query));
  }

  /**
   * `users.reduce((acc, user) => acc + user.pokemonCount, 0)`: no account's
   * count exceeds the total, and the total is 0 exactly when every count is.
   */
  function TotalPokemon(users: seq<Server.KeyRow>): (n: nat)
    ensures forall u :: u in users ==> u.pokemonCount <= n
    ensures n == 0 <==> forall u :: u in users ==> u.pokemonCount == 0
    decreases |users|
  {
    if users == [] then 0
    else
      var init := users[..|users| - 1];
      assert forall u :: u in users ==> u in init || u == users[|users| - 1];
      TotalPokemon(init) + users[|users| - 1].pokemonCount
  }
}
