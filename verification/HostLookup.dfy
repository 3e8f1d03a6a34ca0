/** Registering and locating hosts on C strings: names are normalised in place, and a lookup tries
    the wildcards by overwriting a copy of the requested name. */
module HostLookup {
  import opened Common
  import opened HostNames

  const NUL := '\0'

  /** The C string at the start of `s`. */
  function Text(s: seq<char>): string {
    if s == [] || s[0] == NUL then "" else [s[0]] + Text(s[1..])
  }

  lemma {:induction false} TextIs(s: seq<char>, k: nat)
    requires k < |s| && s[k] == NUL && NUL !in s[..k]
    ensures Text(s) == s[..k]
  {
    if k > 0 {
      assert s[..k][0] == s[0];
      assert s[..k] == [s[0]] + s[1..][..k - 1];
      TextIs(s[1..], k - 1);
    }
  }

  /** The key tried for the dot at `d` in the first pass. */
  function LeadKey(name: string, d: nat): string
    requires d <= |name|
  {
    "*" + name[d..]
  }

  /** The key tried for the dot at `d` in the second pass. */
  function TailKey(name: string, d: nat): string
    requires d < |name|
  {
    name[..d + 1] + "*"
  }

  lemma LeadKeyOf(key: string, name: string)
    requires LeadMatch(key, name)
    ensures var d := |name| - |key| + 1; 1 <= d < |name| && name[d] == '.' && key == LeadKey(name, d)
  {
    var d := |name| - |key| + 1;
    assert name[d] == name[d..][0] && key == [key[0]] + key[1..];
  }

  lemma TailKeyOf(key: string, name: string)
    requires TailMatch(key, name)
    ensures var n, d := WithoutTailDot(name), |key| - 2; d < |n| && n[d] == '.' && key == TailKey(n, d)
  {
    var n, d := WithoutTailDot(name), |key| - 2;
    assert key[..d + 1] == n[..d + 1] && key[..d + 1][d] == n[..d + 1][d];
    assert key == key[..d + 1] + [key[d + 1]];
  }

  /** A key found at dot `d`, when all earlier dots failed, is the longest leading match. */
  lemma LeadFound(table: map<string, nat>, name: string, d: nat)
    requires 1 <= d < |name| && name[d] == '.' && LeadKey(name, d) in table
    requires forall e :: 1 <= e < d && name[e] == '.' ==> LeadKey(name, e) !in table
    ensures LongestLead(table, name, LeadKey(name, d))
  {
    forall k | k in table && LeadMatch(k, name)
      ensures |k| <= |LeadKey(name, d)|
    {
      LeadKeyOf(k, name);
    }
  }

  lemma LeadExhausted(table: map<string, nat>, name: string)
    requires forall e :: 1 <= e < |name| && name[e] == '.' ==> LeadKey(name, e) !in table
    ensures NoLead(table, name)
  {
    forall k | k in table
      ensures !LeadMatch(k, name)
    {
      if LeadMatch(k, name) {
        LeadKeyOf(k, name);
      }
    }
  }

  lemma TailFound(table: map<string, nat>, name: string, d: nat)
    requires var n := WithoutTailDot(name); d < |n| && n[d] == '.' && TailKey(n, d) in table
    requires var n := WithoutTailDot(name); forall e :: d < e < |n| && n[e] == '.' ==> TailKey(n, e) !in table
    ensures LongestTail(table, name, TailKey(WithoutTailDot(name), d))
  {
    var n := WithoutTailDot(name);
    assert TailKey(n, d)[..d + 1] == n[..d + 1];
    forall k | k in table && TailMatch(k, name)
      ensures |k| <= |TailKey(n, d)|
    {
      TailKeyOf(k, name);
    }
  }

  lemma TailExhausted(table: map<string, nat>, name: string)
    requires var n := WithoutTailDot(name); forall e :: 0 <= e < |n| && n[e] == '.' ==> TailKey(n, e) !in table
    ensures NoTail(table, name)
  {
    forall k | k in table
      ensures !TailMatch(k, name)
    {
      if TailMatch(k, name) {
        TailKeyOf(k, name);
      }
    }
  }

  class Listen {
    var hostDict: Option<map<string, nat>>   // None until hosts are registered
    var wildcard: Option<nat>
    var anyPrefix: bool
    var anySuffix: bool
    const defaultHost: nat

    /** The flags let no pass be skipped that could match. */
    ghost predicate Valid()
      reads this
    {
      hostDict.Some? ==>
        && (forall k :: k in hostDict.value && k != "" && k[0] == '*' ==> anyPrefix)
        && (forall k :: k in hostDict.value && k != "" && k[|k| - 1] == '*' ==> anySuffix)
    }

    constructor (defaultHost: nat)
      ensures Valid() && hostDict == None && wildcard == None && this.defaultHost == defaultHost
      ensures !anyPrefix && !anySuffix
    {
      this.defaultHost := defaultHost;
      hostDict, wildcard, anyPrefix, anySuffix := None, None, false, false;
    }

    // ---------- registration ----------

    static method StrLen(a: array<char>) returns (n: nat)
      requires NUL in a[..]
      ensures n < a.Length && a[n] == NUL && NUL !in a[..n] && a[..n] == Text(a[..])
    {
      n := 0;
      while a[n] != NUL
        invariant n < a.Length && NUL !in a[..n]
        decreases a.Length - n
      {
        assert a[..n + 1] == a[..n] + [a[n]];
        n := n + 1;
      }
      TextIs(a[..], n);
    }

    /** Lower case, and without the tail dot. */
    static method Normalise(a: array<char>, n: nat) returns (len: nat)
      requires 0 < n < a.Length && a[n] == NUL && NUL !in a[..n]
      modifies a
      ensures len < a.Length && a[len] == NUL && NUL !in a[..len] && a[..len] == Normal(old(a[..n]))
    {
      ghost var name := a[..n];
      var i := 0;
      while a[i] != NUL
        invariant i <= n && a[n] == NUL && NUL !in a[..n]
        invariant a[..i] == LowerAll(name)[..i] && a[i..n] == name[i..]
        decreases n - i
      {
        assert a[i] == a[i..n][0] && a[i] == a[..n][i];
        a[i] := Lower(a[i]);
        i := i + 1;
      }
      assert a[..n] == LowerAll(name);
      len := n;
      if a[n - 1] == '.' {
        a[n - 1] := NUL;
        len := n - 1;
      }
    }

    /** Adds one name, a C string that is rewritten in place. */
    method AddName(host: nat, a: array<char>) returns (ok: bool)
      requires Valid() && hostDict.Some? && NUL in a[..]
      modifies a, this
      ensures Valid() && hostDict.Some? && NUL in a[..]
      ensures var name := old(Text(a[..]));
              ok == (name != "" && if name == "*" then old(wildcard) == None
                                   else Allowed(Normal(name)) && Normal(name) !in old(hostDict.value))
      ensures !ok ==> hostDict == old(hostDict) && wildcard == old(wildcard)
      ensures var name := old(Text(a[..]));
              ok && name == "*" ==> hostDict == old(hostDict) && wildcard == Some(host)
      ensures var name := old(Text(a[..]));
              ok && name != "*" ==> && Text(a[..]) == Normal(name) && wildcard == old(wildcard)
                                    && hostDict.value == old(hostDict.value)[Normal(name) := host]
    {
      var n := StrLen(a);
      if n == 0 {
        return false;
      }
      ghost var name := Text(a[..]);
      if n == 1 && a[0] == '*' {
        if wildcard.Some? {
          return false;
        }
        wildcard := Some(host);
        return true;
      }
      ok := AddPlain(host, a, n);
    }

    /** A name other than "*". */
    method AddPlain(host: nat, a: array<char>, n: nat) returns (ok: bool)
      requires Valid() && hostDict.Some? && 0 < n < a.Length && a[n] == NUL && NUL !in a[..n]
      modifies a, this`anyPrefix, this`anySuffix, this`hostDict
      ensures Valid() && hostDict.Some? && NUL in a[..]
      ensures ok == (Allowed(Normal(old(a[..n]))) && Normal(old(a[..n])) !in old(hostDict.value))
      ensures !ok ==> hostDict == old(hostDict)
      ensures ok ==>
          var name := Normal(old(a[..n]));
          Text(a[..]) == name && hostDict.value == old(hostDict.value)[name := host]
    {
      hide Allowed, Normal, Text;
      var len := Normalise(a, n);
      TextIs(a[..], len);
      assert a[..][len] == NUL;
      ok := CheckWild(a, len);
      var key := Text(a[..]);
      if !ok || key in hostDict.value {
        return false;
      }
      hostDict := Some(hostDict.value[key := host]);
    }

    /** Where a wildcard may stand. A good one raises the flag of the pass that looks for it. */
    method CheckWild(a: array<char>, len: nat) returns (ok: bool)
      requires Valid() && len < a.Length && a[len] == NUL && NUL !in a[..len]
      modifies this`anyPrefix, this`anySuffix
      ensures Valid() && ok == Allowed(a[..len])
      ensures old(anyPrefix) ==> anyPrefix
      ensures old(anySuffix) ==> anySuffix
      ensures ok && len > 0 && a[0] == '*' ==> anyPrefix
      ensures ok && len > 0 && a[len - 1] == '*' ==> anySuffix
    {
      var wild := StrChr(a, '*', 0, len);
      if wild == None {
        assert '*' !in a[..len];
        return true;
      }
      assert a[..len][wild.value] == '*';
      if wild == Some(0) {
        if a[1] != '.' {
          return false;
        }
        assert a[1..len] == a[..len][1..];
        var more := StrChr(a, '*', 1, len);
        if more.Some? {
          assert a[1..len][more.value - 1] == '*';
          return false;
        }
        anyPrefix := true;
        return true;
      } else if wild == Some(len - 1) {
        if a[len - 2] != '.' {
          return false;
        }
        anySuffix := true;
        return true;
      } else {
        return false;
      }
    }

    /** The host names of one host, as entries. */
    static function EntriesOf(host: nat, names: seq<string>): (r: seq<Entry>)
      ensures |r| == |names| && forall j :: 0 <= j < |names| ==> r[j] == Entry(names[j], host)
    {
      seq(|names|, j requires 0 <= j < |names| => Entry(names[j], host))
    }

    /** All entries of a configuration, in the order they are registered. */
    static function AllEntries(hosts: seq<seq<string>>): seq<Entry> {
      if hosts == [] then []
      else AllEntries(hosts[..|hosts| - 1]) + EntriesOf(|hosts| - 1, hosts[|hosts| - 1])
    }

    static lemma {:induction false} AllEntriesStart(hosts: seq<seq<string>>, n: nat)
      requires n <= |hosts|
      ensures AllEntries(hosts[..n]) <= AllEntries(hosts)
    {
      if n == |hosts| {
        assert hosts[..n] == hosts;
      } else {
        AllEntriesStart(hosts[..|hosts| - 1], n);
        assert hosts[..|hosts| - 1][..n] == hosts[..n];
      }
    }

    /** The C strings in `arrays`. */
    static ghost predicate Spells(arrays: seq<array<char>>, names: seq<string>)
      reads arrays
    {
      && |arrays| == |names|
      && forall j :: 0 <= j < |arrays| ==> NUL in arrays[j][..] && Text(arrays[j][..]) == names[j]
    }

    static ghost predicate Distinct(arrays: seq<array<char>>) {
      forall i, j :: 0 <= i < j < |arrays| ==> arrays[i] != arrays[j]
    }

    static ghost function Strings(hosts: seq<seq<array<char>>>): set<array<char>> {
      set i, j | 0 <= i < |hosts| && 0 <= j < |hosts[i]| :: hosts[i][j]
    }

    /** No string is shared between hosts. */
    static ghost predicate Apart(hosts: seq<seq<array<char>>>) {
      && (forall i :: 0 <= i < |hosts| ==> Distinct(hosts[i]))
      && forall i, j, a :: 0 <= i < j < |hosts| && a in hosts[i] ==> a !in hosts[j]
    }

    /** The names added so far. */
    ghost predicate Holds(entries: seq<Entry>)
      reads this
    {
      Valid() && Accepted(entries) && hostDict == Some(Table(entries)) && wildcard == Star(entries)
    }

    /** One name after `before`. */
    method AddNext(host: nat, a: array<char>, ghost before: seq<Entry>) returns (ok: bool)
      requires Holds(before) && NUL in a[..]
      modifies a, this
      ensures ok == Accepted(before + [Entry(old(Text(a[..])), host)])
      ensures Valid() && hostDict.Some?
      ensures ok ==> Holds(before + [Entry(old(Text(a[..])), host)])
    {
      ghost var e := Entry(Text(a[..]), host);
      OneMore(before, e);
      OneMoreTable(before, e);
      ok := AddName(host, a);
    }

    method NewDict()
      requires wildcard == None
      modifies this`hostDict
      ensures Holds([])
    {
      hostDict := Some(map[]);
    }

    /** The names of one host. */
    method RegisterHost(host: nat, arrays: seq<array<char>>, ghost names: seq<string>, ghost before: seq<Entry>)
      returns (ok: bool)
      requires Holds(before) && Distinct(arrays) && Spells(arrays, names)
      modifies arrays, this
      ensures ok == Accepted(before + EntriesOf(host, names))
      ensures Valid() && hostDict.Some?
      ensures ok ==> Holds(before + EntriesOf(host, names))
    {
      hide Accepted, Table, Star, Valid;
      ghost var all := before + EntriesOf(host, names);
      var j := 0;
      assert all[..|before|] == before;
      while j < |arrays|
        invariant j <= |arrays| && Holds(all[..|before| + j])
        invariant forall k :: j <= k < |arrays| ==> NUL in arrays[k][..] && Text(arrays[k][..]) == names[k]
      {
        ghost var n := |before| + j;
        assert all[..n] + [all[n]] == all[..n + 1];
        ok := AddNext(host, arrays[j], all[..n]);
        if !ok {
          RejectedStart(all, n + 1);
          return false;
        }
        j := j + 1;
      }
      assert all[..|before| + j] == all;
      return true;
    }

    static lemma StaysApart(hosts: seq<seq<array<char>>>, i: nat)
      requires Apart(hosts) && i < |hosts|
      ensures forall k, j :: i < k < |hosts| && 0 <= j < |hosts[k]| ==>
          hosts[k][j] in hosts[k] && hosts[k][j] !in hosts[i]
    {
    }

    static lemma HostsAreDistinct(hosts: seq<seq<array<char>>>)
      requires Apart(hosts)
      ensures forall i :: 0 <= i < |hosts| ==> Distinct(hosts[i])
    {
    }

    static lemma RejectedHosts(names: seq<seq<string>>, n: nat)
      requires n <= |names| && !Accepted(AllEntries(names[..n]))
      ensures !Accepted(AllEntries(names))
    {
      AllEntriesStart(names, n);
      var bad := AllEntries(names[..n]);
      assert bad == AllEntries(names)[..|bad|];
      RejectedStart(AllEntries(names), |bad|);
    }

    /** All hosts of a listen. */
    method Register(hosts: seq<seq<array<char>>>, ghost names: seq<seq<string>>) returns (ok: bool)
      requires Valid() && wildcard == None && Apart(hosts)
      requires |names| == |hosts| && forall i :: 0 <= i < |hosts| ==> Spells(hosts[i], names[i])
      modifies this, Strings(hosts)
      ensures Valid() && hostDict.Some?
      ensures ok == Accepted(AllEntries(names))
      ensures ok ==> hostDict == Some(Table(AllEntries(names))) && wildcard == Star(AllEntries(names))
    {
      hide Accepted, Table, Star, Valid, Text, Apart, EntriesOf;
      assert forall i :: 0 <= i < |hosts| ==> Distinct(hosts[i]) by {
        HostsAreDistinct(hosts);
      }
      NewDict();
      var i := 0;
      while i < |hosts|
        invariant i <= |hosts| && Holds(AllEntries(names[..i]))
        invariant forall k :: i <= k < |hosts| ==> Spells(hosts[k], names[k])
      {
        assert names[..i + 1][..i] == names[..i];
        assert forall a :: a in hosts[i] ==> a in Strings(hosts);
        StaysApart(hosts, i);
        ok := RegisterHost(i, hosts[i], names[i], AllEntries(names[..i]));
        if !ok {
          RejectedHosts(names, i + 1);
          return false;
        }
        i := i + 1;
      }
      assert names[..i] == names;
      return true;
    }

    // ---------- lookup ----------

    /** The host of a request. For an empty name the second pass looks for the tail dot in front of its
        copy, where there is `front`: `stray` is whether it reads that byte, and `cut` whether it
        overwrites it, which it does if it is a dot. */
    method Locate(name: Option<string>, front: char) returns (r: Option<nat>, stray: bool, cut: bool)
      requires Valid() && (name.Some? ==> NUL !in name.value)
      ensures hostDict == None ==> r == Some(defaultHost)
      ensures hostDict.Some? && name == None ==> r == wildcard
      ensures hostDict.Some? && name.Some? ==> Answers(hostDict.value, wildcard, name.value, r)
      ensures stray <==> name == Some("") && hostDict.Some? && "" !in hostDict.value && anySuffix
      ensures cut <==> stray && front == '.'
    {
      stray, cut := false, false;
      if hostDict == None {
        r := Some(defaultHost);
      } else if name == None {
        r := wildcard;
      } else if name.value in hostDict.value {
        r := Some(hostDict.value[name.value]);
      } else {
        r := None;
        if anyPrefix {
          r := LeadPass(hostDict.value, name.value);
        } else {
          assert NoLead(hostDict.value, name.value);
        }
        if r == None && anySuffix {
          stray := name.value == "";
          cut := stray && front == '.';
          if stray {
            NoTailOfEmpty(hostDict.value);
          } else {
            r := TailPass(hostDict.value, name.value);
          }
        } else if r == None {
          assert NoTail(hostDict.value, name.value);
        }
        if r == None {
          r := wildcard;
        }
      }
    }

    /** An empty name has no dot to cut behind, whatever is in front of the copy. */
    static lemma NoTailOfEmpty(table: map<string, nat>)
      ensures NoTail(table, "")
    {
    }

    static method CopyOf(name: string) returns (a: array<char>)
      ensures fresh(a) && a.Length == |name| + 1 && a[..|name|] == name && a[|name|] == NUL
    {
      a := new char[|name| + 1](i => NUL);
      forall i | 0 <= i < |name| {
        a[i] := name[i];
      }
    }

    /** strchr, on the C string that ends at `end`. */
    static method StrChr(a: array<char>, c: char, from: nat, end: nat) returns (d: Option<nat>)
      requires from <= end < a.Length && a[end] == NUL && NUL !in a[from..end]
      ensures d.Some? ==> from <= d.value < end && a[d.value] == c && c !in a[from..d.value]
      ensures d == None ==> c !in a[from..end]
    {
      var i := from;
      while a[i] != NUL
        invariant from <= i <= end && c !in a[from..i]
        decreases end - i
      {
        assert a[i] == a[from..end][i - from] || i == end;
        if a[i] == c {
          return Some(i);
        }
        assert a[from..i + 1] == a[from..i] + [a[i]];
        i := i + 1;
      }
      return None;
    }

    /** The first pass has come to `p`: the copy is still the name from there on. */
    static predicate AtLead(a: array<char>, name: string, p: nat)
      reads a
    {
      && p <= |name| && a.Length == |name| + 1 && a[p..|name|] == name[p..] && a[|name|] == NUL
      && (p == 0 && name != "" ==> name[0] != '.')
    }

    /** First pass: "*" over the character before each dot, from the left. */
    static method LeadPass(table: map<string, nat>, name: string) returns (r: Option<nat>)
      requires NUL !in name && name !in table
      ensures r.Some? ==> exists key :: LongestLead(table, name, key) && r == Some(table[key])
      ensures r == None ==> NoLead(table, name)
    {
      var a := CopyOf(name);
      var p := if a[0] == '.' then 1 else 0;
      while true
        invariant AtLead(a, name, p)
        invariant forall e :: 1 <= e < p && name[e] == '.' ==> LeadKey(name, e) !in table
        decreases |name| - p
      {
        var found, d, key := LeadTurn(a, name, p);
        if !found {
          LeadExhausted(table, name);
          return None;
        }
        if key in table {
          LeadFound(table, name, d);
          return Some(table[key]);
        }
        p := d + 1;
      }
    }

    /** The next dot, and the key that is tried there. */
    static method LeadTurn(a: array<char>, name: string, p: nat) returns (found: bool, d: nat, key: string)
      requires NUL !in name && AtLead(a, name, p)
      modifies a
      ensures !found ==> forall e :: p <= e < |name| ==> name[e] != '.'
      ensures found ==>
          && 1 <= d < |name| && p <= d && name[d] == '.' && key == LeadKey(name, d)
          && (forall e :: p <= e < d ==> name[e] != '.') && AtLead(a, name, d + 1)
    {
      var n := |name|;
      assert NUL !in name[p..];
      var dot := StrChr(a, '.', p, n);
      if dot == None {
        assert forall e :: p <= e < n ==> name[e] == name[p..][e - p] && a[p..n][e - p] == a[e];
        return false, 0, "";
      }
      d := dot.value;
      LeadStep(name, a[..], p, d);
      a[d - 1] := '*';
      assert a[d - 1..n] == LeadKey(name, d);
      TextIs(a[d - 1..], n - d + 1);
      return true, d, Text(a[d - 1..]);
    }

    static lemma LeadStep(name: string, a: seq<char>, p: nat, d: nat)
      requires |a| == |name| + 1 && p <= d < |name| && a[p..|name|] == name[p..] && a[d] == '.' && '.' !in a[p..d]
      requires p == 0 && name != "" ==> name[0] != '.'
      ensures d >= 1 && name[d] == '.' && a[d..|name|] == name[d..] && a[d + 1..|name|] == name[d + 1..]
      ensures forall e :: p <= e < d ==> name[e] != '.'
    {
      forall e | p <= e < d
        ensures name[e] != '.'
      {
        assert name[p..][e - p] == a[p..|name|][e - p] && a[p..d][e - p] == a[e];
      }
      assert a[p..|name|][d - p..] == a[d..|name|] && name[p..][d - p..] == name[d..];
    }

    /** strrchr for a dot. */
    static method FindLastDot(a: array<char>, end: nat) returns (d: Option<nat>)
      requires end < a.Length && a[end] == NUL && NUL !in a[..end]
      ensures d.Some? ==> d.value < end && a[d.value] == '.' && '.' !in a[d.value + 1..end]
      ensures d == None ==> '.' !in a[..end]
    {
      var i := end;
      while i > 0
        invariant 0 <= i <= end && '.' !in a[i..end]
      {
        if a[i - 1] == '.' {
          return Some(i - 1);
        }
        assert a[i - 1..end] == [a[i - 1]] + a[i..end];
        i := i - 1;
      }
      return None;
    }

    /** The second pass has cut the copy at `len`. */
    static predicate AtTail(a: array<char>, name: string, len: nat)
      reads a
    {
      var n := WithoutTailDot(name);
      && len <= |n| && a.Length == |name| + 1 && a[..len] == n[..len] && a[len] == NUL
      && (len == |n| || len + 2 <= |name|)
    }

    /** Second pass: cut behind each dot, from the right, and put "*" there. */
    static method TailPass(table: map<string, nat>, name: string) returns (r: Option<nat>)
      requires name != "" && NUL !in name && name !in table
      ensures r.Some? ==> exists key :: LongestTail(table, name, key) && r == Some(table[key])
      ensures r == None ==> NoTail(table, name)
    {
      hide Text, LongestTail, NoTail, TailMatch;
      var a := CopyOf(name);
      ghost var n := WithoutTailDot(name);
      var len: nat := |name|;
      if a[len - 1] == '.' {
        len := len - 1;
        a[len] := NUL;
      }
      while true
        invariant AtTail(a, name, len)
        invariant forall e :: len <= e < |n| && n[e] == '.' ==> TailKey(n, e) !in table
        decreases len
      {
        var found, d, key := TailTurn(a, name, len);
        if !found {
          TailExhausted(table, name);
          return None;
        }
        if key in table {
          TailFound(table, name, d);
          return Some(table[key]);
        }
        a[d] := NUL;
        len := d;
      }
    }

    /** The last dot left, and the key that is tried there. */
    static method TailTurn(a: array<char>, name: string, len: nat) returns (found: bool, d: nat, key: string)
      requires NUL !in name && AtTail(a, name, len)
      modifies a
      ensures var n := WithoutTailDot(name);
          && (!found ==> forall e :: 0 <= e < len ==> n[e] != '.')
          && (found ==>
                && d < len && n[d] == '.' && key == TailKey(n, d) && a[..d] == n[..d]
                && forall e :: d < e < len ==> n[e] != '.')
    {
      ghost var n := WithoutTailDot(name);
      assert NUL !in n[..len];
      var dot := FindLastDot(a, len);
      if dot == None {
        assert forall e :: 0 <= e < len ==> n[e] == n[..len][e] && a[e] == a[..len][e];
        return false, 0, "";
      }
      d := dot.value;
      TailStep(n, a[..], len, d);
      a[d + 1] := '*';
      a[d + 2] := NUL;
      assert a[..d + 2] == TailKey(n, d);
      TextIs(a[..], d + 2);
      return true, d, Text(a[..]);
    }

    static lemma TailStep(n: string, a: seq<char>, len: nat, d: nat)
      requires len <= |n| && len <= |a| && a[..len] == n[..len] && d < len && a[d] == '.' && '.' !in a[d + 1..len]
      ensures n[d] == '.' && a[..d] == n[..d] && a[..d + 1] == n[..d + 1]
      ensures forall e :: d < e < len ==> n[e] != '.'
    {
      assert a[..len][d] == n[..len][d];
      forall e | d < e < len
        ensures n[e] != '.'
      {
        assert a[..len][e] == n[..len][e] && a[d + 1..len][e - d - 1] == a[e];
      }
      assert a[..len][..d] == a[..d] && n[..len][..d] == n[..d];
      assert a[..len][..d + 1] == a[..d + 1] && n[..len][..d + 1] == n[..d + 1];
    }
  }
}
