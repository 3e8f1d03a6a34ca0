/** Host names: what a configuration may register, and the declarative rule a lookup answers. */
module HostNames {
  import opened Common

  datatype Entry = Entry(name: string, host: nat)

  function Lower(c: char): char {
    if 'A' <= c <= 'Z' then c - 'A' + 'a' else c
  }

  function LowerAll(s: string): (r: string)
    ensures |r| == |s| && forall k :: 0 <= k < |s| ==> r[k] == Lower(s[k])
  {
    seq(|s|, k requires 0 <= k < |s| => Lower(s[k]))
  }

  function WithoutTailDot(s: string): string {
    if s != "" && s[|s| - 1] == '.' then s[..|s| - 1] else s
  }

  /** The form in which a name is stored. */
  function Normal(s: string): string {
    WithoutTailDot(LowerAll(s))
  }

  /** Every letter is lowered, and nothing but one dot at the end is taken off. */
  lemma NormalIs(s: string)
    ensures var r := Normal(s);
        && |r| == |s| - (if s != "" && s[|s| - 1] == '.' then 1 else 0)
        && forall k :: 0 <= k < |r| ==>
             && !('A' <= r[k] <= 'Z')
             && (if 'A' <= s[k] <= 'Z' then r[k] as int == s[k] as int + 32 else r[k] == s[k])
  {
  }

  // ---------- which names are accepted ----------

  predicate LeadingWild(n: string) {
    |n| >= 2 && n[0] == '*' && n[1] == '.' && '*' !in n[1..]
  }

  predicate TrailingWild(n: string) {
    |n| >= 2 && n[|n| - 1] == '*' && n[|n| - 2] == '.' && '*' !in n[..|n| - 1]
  }

  predicate Allowed(n: string) {
    '*' !in n || LeadingWild(n) || TrailingWild(n)
  }

  /** A list of names that can be registered together. */
  predicate Accepted(entries: seq<Entry>) {
    && (forall i :: 0 <= i < |entries| ==>
          entries[i].name != "" && (entries[i].name != "*" ==> Allowed(Normal(entries[i].name))))
    && (forall i, j :: 0 <= i < j < |entries| ==> !Clash(entries[i], entries[j]))
  }

  /** Two names that are the same when looked up. */
  predicate Clash(a: Entry, b: Entry) {
    if a.name == "*" || b.name == "*" then a.name == b.name else Normal(a.name) == Normal(b.name)
  }

  /** The table a list of names amounts to, later entries on top. */
  function Table(entries: seq<Entry>): map<string, nat> {
    if entries == [] then map[]
    else
      var rest, last := entries[..|entries| - 1], entries[|entries| - 1];
      if last.name == "*" then Table(rest) else Table(rest)[Normal(last.name) := last.host]
  }

  function Star(entries: seq<Entry>): Option<nat> {
    if entries == [] then None
    else
      var rest, last := entries[..|entries| - 1], entries[|entries| - 1];
      if last.name == "*" then Some(last.host) else Star(rest)
  }

  // ---------- the lookup rule ----------

  /** `key` is "*" and a suffix of `name` that starts with a dot and leaves at least one character. */
  predicate LeadMatch(key: string, name: string) {
    |key| >= 2 && key[0] == '*' && key[1] == '.' && |name| >= |key| && name[|name| - |key| + 1..] == key[1..]
  }

  /** `key` is a prefix of `name` that ends with a dot, and "*". A final dot of the name is ignored. */
  predicate TailMatch(key: string, name: string) {
    var n := WithoutTailDot(name);
    |key| >= 2 && key[|key| - 1] == '*' && key[|key| - 2] == '.' && key[..|key| - 1] <= n
  }

  ghost predicate LongestLead(table: map<string, nat>, name: string, key: string) {
    key in table && LeadMatch(key, name) && forall k :: k in table && LeadMatch(k, name) ==> |k| <= |key|
  }

  ghost predicate LongestTail(table: map<string, nat>, name: string, key: string) {
    key in table && TailMatch(key, name) && forall k :: k in table && TailMatch(k, name) ==> |k| <= |key|
  }

  ghost predicate NoLead(table: map<string, nat>, name: string) {
    forall k :: k in table ==> !LeadMatch(k, name)
  }

  ghost predicate NoTail(table: map<string, nat>, name: string) {
    forall k :: k in table ==> !TailMatch(k, name)
  }

  /** Exact match, else the longest leading wildcard, else the longest trailing one, else "*". */
  ghost predicate Answers(table: map<string, nat>, star: Option<nat>, name: string, r: Option<nat>) {
    if name in table then r == Some(table[name])
    else if !NoLead(table, name) then exists key :: LongestLead(table, name, key) && r == Some(table[key])
    else if !NoTail(table, name) then exists key :: LongestTail(table, name, key) && r == Some(table[key])
    else r == star
  }

  lemma LongestLeadIsUnique(table: map<string, nat>, name: string, k1: string, k2: string)
    requires LongestLead(table, name, k1) && LongestLead(table, name, k2)
    ensures k1 == k2
  {
    assert |k1| == |k2|;
    assert k1 == [k1[0]] + k1[1..] && k2 == [k2[0]] + k2[1..];
  }

  lemma LongestTailIsUnique(table: map<string, nat>, name: string, k1: string, k2: string)
    requires LongestTail(table, name, k1) && LongestTail(table, name, k2)
    ensures k1 == k2
  {
    var n, m := WithoutTailDot(name), |k1| - 1;
    assert |k2| == m + 1;
    assert k1[..m] == n[..m] && k2[..m] == n[..m];
    assert k1 == k1[..m] + [k1[m]] && k2 == k2[..m] + [k2[m]];
  }

  /** The rule leaves no choice. */
  lemma AnswerIsUnique(table: map<string, nat>, star: Option<nat>, name: string, r1: Option<nat>, r2: Option<nat>)
    requires Answers(table, star, name, r1) && Answers(table, star, name, r2)
    ensures r1 == r2
  {
    hide LeadMatch, TailMatch;
    if name in table {
    } else if !NoLead(table, name) {
      var k1 :| LongestLead(table, name, k1) && r1 == Some(table[k1]);
      var k2 :| LongestLead(table, name, k2) && r2 == Some(table[k2]);
      LongestLeadIsUnique(table, name, k1, k2);
    } else if !NoTail(table, name) {
      var k1 :| LongestTail(table, name, k1) && r1 == Some(table[k1]);
      var k2 :| LongestTail(table, name, k2) && r2 == Some(table[k2]);
      LongestTailIsUnique(table, name, k1, k2);
    }
  }

  // ---------- the order of hosts does not matter ----------

  lemma {:induction false} TableMembers(entries: seq<Entry>, k: string)
    requires Accepted(entries)
    ensures k in Table(entries) <==> exists e <- entries :: e.name != "*" && Normal(e.name) == k
    ensures forall e <- entries ::
        e.name != "*" && Normal(e.name) == k ==> k in Table(entries) && Table(entries)[k] == e.host
  {
    if entries != [] {
      var rest, last := entries[..|entries| - 1], entries[|entries| - 1];
      assert entries == rest + [last];
      assert Accepted(rest) by {
        assert forall i :: 0 <= i < |rest| ==> rest[i] == entries[i];
      }
      TableMembers(rest, k);
      assert forall e <- rest :: !Clash(e, last) by {
        forall e | e in rest
          ensures !Clash(e, last)
        {
          var i :| 0 <= i < |rest| && rest[i] == e;
          assert entries[i] == e && entries[|entries| - 1] == last;
        }
      }
    }
  }

  lemma {:induction false} StarMember(entries: seq<Entry>)
    requires Accepted(entries)
    ensures forall e <- entries :: e.name == "*" ==> Star(entries) == Some(e.host)
    ensures (forall e <- entries :: e.name != "*") ==> Star(entries) == None
  {
    if entries != [] {
      var rest, last := entries[..|entries| - 1], entries[|entries| - 1];
      assert entries == rest + [last];
      assert Accepted(rest) by {
        assert forall i :: 0 <= i < |rest| ==> rest[i] == entries[i];
      }
      StarMember(rest);
      forall e | e in rest && last.name == "*"
        ensures e.name != "*"
      {
        var i :| 0 <= i < |rest| && rest[i] == e;
        assert !Clash(entries[i], entries[|entries| - 1]);
      }
    }
  }

  /** What one more name needs: a wildcard must be the first, any other name new and well formed. */
  predicate Fits(entries: seq<Entry>, e: Entry) {
    && e.name != ""
    && if e.name == "*" then Star(entries) == None
       else Allowed(Normal(e.name)) && Normal(e.name) !in Table(entries)
  }

  lemma OneMore(entries: seq<Entry>, e: Entry)
    requires Accepted(entries)
    ensures Accepted(entries + [e]) <==> Fits(entries, e)
  {
    var all := entries + [e];
    TableMembers(entries, Normal(e.name));
    StarMember(entries);
    if Accepted(all) {
      assert all[|entries|] == e;
      forall x | x in entries
        ensures !Clash(x, e)
      {
        var i :| 0 <= i < |entries| && entries[i] == x;
        assert all[i] == x;
      }
    } else if Fits(entries, e) {
      assert forall i :: 0 <= i < |entries| ==> all[i] == entries[i] && !Clash(entries[i], e);
    }
  }

  lemma OneMoreTable(entries: seq<Entry>, e: Entry)
    ensures Table(entries + [e]) == if e.name == "*" then Table(entries) else Table(entries)[Normal(e.name) := e.host]
    ensures Star(entries + [e]) == if e.name == "*" then Some(e.host) else Star(entries)
  {
    assert (entries + [e])[..|entries|] == entries;
  }

  lemma RejectedStart(entries: seq<Entry>, n: nat)
    requires n <= |entries| && !Accepted(entries[..n])
    ensures !Accepted(entries)
  {
    if Accepted(entries) {
      assert forall i :: 0 <= i < n ==> entries[..n][i] == entries[i];
    }
  }

  lemma {:induction false} TwiceMeansTwoPlaces(s: seq<Entry>, e: Entry)
    requires multiset(s)[e] >= 2
    ensures exists i, j :: 0 <= i < j < |s| && s[i] == e && s[j] == e
  {
    var rest, last := s[..|s| - 1], s[|s| - 1];
    assert s == rest + [last];
    if last == e {
      assert e in multiset(rest);
      var i :| 0 <= i < |rest| && rest[i] == e;
      assert s[i] == e && s[|s| - 1] == e;
    } else {
      TwiceMeansTwoPlaces(rest, e);
      var i, j :| 0 <= i < j < |rest| && rest[i] == e && rest[j] == e;
      assert s[i] == e && s[j] == e;
    }
  }

  lemma TwoPlacesMeansTwice(s: seq<Entry>, i: nat, j: nat)
    requires i < j < |s| && s[i] == s[j]
    ensures multiset(s)[s[i]] >= 2
  {
    assert s == s[..j] + [s[j]] + s[j + 1..];
    assert s[..j][i] in multiset(s[..j]);
  }

  lemma AcceptedInAnyOrder(a: seq<Entry>, b: seq<Entry>)
    requires Accepted(a) && multiset(a) == multiset(b)
    ensures Accepted(b)
  {
    forall i | 0 <= i < |b|
      ensures b[i] in a
    {
      assert b[i] in multiset(b);
    }
    forall i, j | 0 <= i < j < |b|
      ensures !Clash(b[i], b[j])
    {
      if b[i] == b[j] {
        TwoPlacesMeansTwice(b, i, j);
        TwiceMeansTwoPlaces(a, b[i]);
      }
    }
  }

  /** Any order of the hosts registers the same names to the same hosts. */
  lemma OrderIsIrrelevant(a: seq<Entry>, b: seq<Entry>)
    requires Accepted(a) && multiset(a) == multiset(b)
    ensures Accepted(b) && Table(a) == Table(b) && Star(a) == Star(b)
  {
    AcceptedInAnyOrder(a, b);
    assert forall e :: e in a <==> e in multiset(a);
    assert forall e :: e in b <==> e in multiset(b);
    forall k
      ensures k in Table(a) <==> k in Table(b)
      ensures k in Table(a) ==> Table(a)[k] == Table(b)[k]
    {
      TableMembers(a, k);
      TableMembers(b, k);
    }
    StarMember(a);
    StarMember(b);
  }
}
