/**
 * The wallet-list handler (`test.py`): split a message into lines, keep the
 * well-formed addresses, and map each one, lower-cased, to a blocking reason
 * and a source drawn from two fixed lists. `random.choice` is a parameter:
 * `pick(i)` is the pair of draws made for the `i`-th candidate.
 */
module Wallets {
  import opened Text
  import opened Address

  /**
   * The reasons list as written. The seventh and eighth literals have no comma
   * between them, so Python concatenates them into the seventh element.
   */
  const REASONS: seq<string> := [
    "Фишинг",
    "Отмывание денег",
    "Мошенничество",
    "Взломанный кошелек",
    "Незаконные операции",
    "Скам проект",
    "Участие в схеме Понци" + "Tornado Cash"
  ]

  const SOURCES: seq<string> := [
    "Etherscan Blacklist",
    "Chainalysis Report",
    "CertiK Alert",
    "Жалоба пользователя",
    "Внутренняя база",
    "TRM Labs Data",
    "OpenSanctions"
  ]

  datatype Entry = Entry(reason: string, source: string)

  /** The draws come from the two lists, as `random.choice(REASONS)` and `random.choice(SOURCES)` do. */
  ghost predicate DrawsFromLists(pick: nat -> Entry) {
    forall i: nat :: pick(i).reason in REASONS && pick(i).source in SOURCES
  }

  /** REASONS has seven elements, one of them the merged pair; SOURCES has seven. */
  lemma ListSizes()
    ensures |REASONS| == 7 && |SOURCES| == 7
    ensures REASONS[6] == "Участие в схеме ПонциTornado Cash"
    ensures "Tornado Cash" !in REASONS
  {
  }

  /** `[w.strip() for w in lines if w.strip()]`. */
  function NonBlank(lines: seq<string>): (ws: seq<string>)
    ensures |ws| <= |lines|
    ensures "" !in ws
  {
    if lines == [] then []
    else
      var w := Strip(lines[0]);
      var rest := NonBlank(lines[1..]);
      if w == "" then rest else [w] + rest
  }

  /** A candidate is exactly the non-empty stripped form of some line. */
  lemma {:induction false} NonBlankMembers(lines: seq<string>, w: string)
    ensures w in NonBlank(lines) <==> w != "" && exists l :: l in lines && Strip(l) == w
  {
    if lines != [] {
      var tail := lines[1..];
      NonBlankMembers(tail, w);
      assert NonBlank(lines) == (if Strip(lines[0]) != "" then [Strip(lines[0])] else []) + NonBlank(tail);
      if exists l :: l in lines && Strip(l) == w {
        var l :| l in lines && Strip(l) == w;
        if l != lines[0] {
          assert l in tail;
        }
      }
      if exists l :: l in tail && Strip(l) == w {
        var l :| l in tail && Strip(l) == w;
        assert l in lines;
      }
    }
  }

  /** Filtering commutes with concatenation, so the candidates keep the order of the lines. */
  lemma {:induction false} NonBlankAppend(a: seq<string>, b: seq<string>)
    ensures NonBlank(a + b) == NonBlank(a) + NonBlank(b)
  {
    if a != [] {
      var ab := a + b;
      assert ab[0] == a[0] && ab[1..] == a[1..] + b;
      var head := if Strip(a[0]) != "" then [Strip(a[0])] else [];
      assert NonBlank(ab) == head + NonBlank(a[1..] + b);
      NonBlankAppend(a[1..], b);
      assert NonBlank(a) == head + NonBlank(a[1..]);
    } else {
      assert a + b == b;
    }
  }

  /** The candidate wallets of a message: its stripped, non-blank lines. */
  function Candidates(text: string): seq<string> {
    NonBlank(Split(text, '\n'))
  }

  /**
   * Every candidate is non-empty, already stripped, and free of line breaks:
   * it is the stripped form of one line of the message.
   */
  lemma CandidatesClean(text: string, w: string)
    requires w in Candidates(text)
    ensures w != "" && Strip(w) == w && '\n' !in w
  {
    var lines := Split(text, '\n');
    NonBlankMembers(lines, w);
    var l :| l in lines && Strip(l) == w;
    StripIdempotent(l);
    StripAvoids(l, '\n');
  }

  /** The candidates that pass the format check, in order. */
  function Accepted(wallets: seq<string>): (valid: seq<string>)
    ensures |valid| <= |wallets|
    ensures forall w {:trigger w in valid} :: w in valid <==> w in wallets && IsValidAddress(w)
  {
    if wallets == [] then []
    else
      var init := wallets[..|wallets| - 1];
      var last := wallets[|wallets| - 1];
      assert wallets == init + [last];
      Accepted(init) + (if IsValidAddress(last) then [last] else [])
  }

  /** Filtering commutes with concatenation, so the accepted candidates keep their order. */
  lemma {:induction false} AcceptedAppend(a: seq<string>, b: seq<string>)
    ensures Accepted(a + b) == Accepted(a) + Accepted(b)
  {
    if b == [] {
      assert a + b == a;
    } else {
      var n := |b| - 1;
      var ab := a + b;
      var tail := if IsValidAddress(b[n]) then [b[n]] else [];
      assert Accepted(ab) == Accepted(a + b[..n]) + tail by {
        assert ab[..|ab| - 1] == a + b[..n];
        assert ab[|ab| - 1] == b[n];
      }
      AcceptedAppend(a, b[..n]);
      assert Accepted(b) == Accepted(b[..n]) + tail;
      assert Accepted(a) + Accepted(b) == Accepted(a) + Accepted(b[..n]) + tail;
    }
  }

  /** The dictionary the loop has built after the given candidates. */
  function Blocklist(wallets: seq<string>, pick: nat -> Entry): map<string, Entry> {
    if wallets == [] then map[]
    else
      var n := |wallets| - 1;
      var m := Blocklist(wallets[..n], pick);
      if IsValidAddress(wallets[n]) then m[Lower(wallets[n]) := pick(n)] else m
  }

  /** The keys are exactly the lower-cased forms of the accepted candidates. */
  lemma {:induction false} BlocklistKeys(wallets: seq<string>, pick: nat -> Entry)
    ensures Blocklist(wallets, pick).Keys == set w | w in wallets && IsValidAddress(w) :: Lower(w)
  {
    if wallets != [] {
      var n := |wallets| - 1;
      var init := wallets[..n];
      BlocklistKeys(init, pick);
      assert wallets == init + [wallets[n]];
      var want := set w | w in wallets && IsValidAddress(w) :: Lower(w);
      var before := set w | w in init && IsValidAddress(w) :: Lower(w);
      if IsValidAddress(wallets[n]) {
        assert want == before + {Lower(wallets[n])};
      } else {
        assert want == before;
      }
    }
  }

  /** Every key is a canonical address: 42 characters, `0x`, already lower-case. */
  lemma KeysCanonical(wallets: seq<string>, pick: nat -> Entry, k: string)
    requires k in Blocklist(wallets, pick)
    ensures |k| == ADDRESS_LENGTH && StartsWith(k, PREFIX) && Lower(k) == k
  {
  }

  /**
   * The last accepted candidate with a given lower-cased form decides that
   * key's entry: an earlier spelling, in any letter case, is overwritten.
   */
  lemma {:induction false} LastOccurrenceWins(wallets: seq<string>, pick: nat -> Entry, i: nat)
    requires i < |wallets| && IsValidAddress(wallets[i])
    requires forall j :: i < j < |wallets| && IsValidAddress(wallets[j]) ==> Lower(wallets[j]) != Lower(wallets[i])
    ensures Lower(wallets[i]) in Blocklist(wallets, pick)
    ensures Blocklist(wallets, pick)[Lower(wallets[i])] == pick(i)
  {
    var n := |wallets| - 1;
    if i < n {
      var init := wallets[..n];
      assert init[i] == wallets[i];
      forall j | i < j < |init| && IsValidAddress(init[j])
        ensures Lower(init[j]) != Lower(init[i])
      {
        assert init[j] == wallets[j];
      }
      LastOccurrenceWins(init, pick, i);
    }
  }

  /** Every entry was drawn from REASONS and SOURCES. */
  lemma {:induction false} EntriesFromLists(wallets: seq<string>, pick: nat -> Entry)
    requires DrawsFromLists(pick)
    ensures forall k :: k in Blocklist(wallets, pick) ==>
      Blocklist(wallets, pick)[k].reason in REASONS && Blocklist(wallets, pick)[k].source in SOURCES
  {
    if wallets != [] {
      EntriesFromLists(wallets[..|wallets| - 1], pick);
    }
  }

  /** No more keys than accepted candidates, and no more of those than candidates. */
  lemma {:induction false} BlocklistSize(wallets: seq<string>, pick: nat -> Entry)
    ensures |Blocklist(wallets, pick)| <= |Accepted(wallets)| <= |wallets|
  {
    if wallets != [] {
      var n := |wallets| - 1;
      BlocklistSize(wallets[..n], pick);
      var m := Blocklist(wallets[..n], pick);
      if IsValidAddress(wallets[n]) {
        var k := Lower(wallets[n]);
        assert m[k := pick(n)].Keys == m.Keys + {k};
        assert |m[k := pick(n)].Keys| <= |m.Keys| + 1;
      }
    }
  }

  /**
   * The order in which the dictionary holds, and `json.dumps` prints, its
   * keys: a key takes its place when its first spelling is inserted, and an
   * overwrite by a later spelling leaves it there.
   */
  function KeyOrder(wallets: seq<string>): seq<string> {
    if wallets == [] then []
    else
      var n := |wallets| - 1;
      var order := KeyOrder(wallets[..n]);
      if IsValidAddress(wallets[n]) && Lower(wallets[n]) !in order then order + [Lower(wallets[n])]
      else order
  }

  /** The ordered keys are the dictionary's keys, each exactly once. */
  lemma {:induction false} KeyOrderKeys(wallets: seq<string>, pick: nat -> Entry)
    ensures forall k :: k in KeyOrder(wallets) <==> k in Blocklist(wallets, pick)
    ensures forall a, b :: 0 <= a < b < |KeyOrder(wallets)| ==> KeyOrder(wallets)[a] != KeyOrder(wallets)[b]
    ensures |KeyOrder(wallets)| == |Blocklist(wallets, pick)|
  {
    if wallets != [] {
      var n := |wallets| - 1;
      KeyOrderKeys(wallets[..n], pick);
      var order := KeyOrder(wallets[..n]);
      var m := Blocklist(wallets[..n], pick);
      var k := Lower(wallets[n]);
      assert m.Keys == set x | x in order;
      if IsValidAddress(wallets[n]) && k !in order {
        assert m[k := pick(n)].Keys == m.Keys + {k};
        assert |m[k := pick(n)]| == |m| + 1;
      } else if IsValidAddress(wallets[n]) {
        assert m[k := pick(n)].Keys == m.Keys;
      }
    }
  }

  /** Later candidates only append to the key order: an earlier order is a prefix of a later one. */
  lemma {:induction false} KeyOrderPrefix(wallets: seq<string>, i: nat)
    requires i <= |wallets|
    ensures KeyOrder(wallets[..i]) <= KeyOrder(wallets)
    decreases |wallets| - i
  {
    if i < |wallets| {
      var n := |wallets| - 1;
      assert wallets[..n][..i] == wallets[..i];
      KeyOrderPrefix(wallets[..n], i);
    } else {
      assert wallets[..i] == wallets;
    }
  }

  /** A key is in the key order iff some accepted candidate lower-cases to it. */
  lemma {:induction false} KeyOrderMembers(wallets: seq<string>, k: string)
    ensures k in KeyOrder(wallets) <==>
      exists j :: 0 <= j < |wallets| && IsValidAddress(wallets[j]) && Lower(wallets[j]) == k
  {
    if wallets != [] {
      var n := |wallets| - 1;
      KeyOrderMembers(wallets[..n], k);
      if exists j :: 0 <= j < n && IsValidAddress(wallets[..n][j]) && Lower(wallets[..n][j]) == k {
        var j :| 0 <= j < n && IsValidAddress(wallets[..n][j]) && Lower(wallets[..n][j]) == k;
        assert wallets[j] == wallets[..n][j];
      }
      if exists j :: 0 <= j < |wallets| && IsValidAddress(wallets[j]) && Lower(wallets[j]) == k {
        var j :| 0 <= j < |wallets| && IsValidAddress(wallets[j]) && Lower(wallets[j]) == k;
        if j < n { assert wallets[..n][j] == wallets[j]; }
      }
    }
  }

  /**
   * The first accepted spelling of a key fixes its position: the key comes
   * right after the keys of the candidates before that spelling.
   */
  lemma FirstSpellingPlacesKey(wallets: seq<string>, i: nat)
    requires i < |wallets| && IsValidAddress(wallets[i])
    requires forall j :: 0 <= j < i && IsValidAddress(wallets[j]) ==> Lower(wallets[j]) != Lower(wallets[i])
    ensures |KeyOrder(wallets[..i])| < |KeyOrder(wallets)|
    ensures KeyOrder(wallets)[|KeyOrder(wallets[..i])|] == Lower(wallets[i])
  {
    var pre := wallets[..i + 1];
    assert pre[..i] == wallets[..i] && pre[i] == wallets[i];
    KeyOrderMembers(wallets[..i], Lower(wallets[i]));
    assert forall j :: 0 <= j < i ==> wallets[..i][j] == wallets[j];
    assert Lower(wallets[i]) !in KeyOrder(wallets[..i]);
    assert KeyOrder(pre) == KeyOrder(wallets[..i]) + [Lower(wallets[i])];
    KeyOrderPrefix(wallets, i + 1);
  }

  /** What `HandleWallets` promises, gathered from the lemmas above. */
  lemma BlocklistProperties(wallets: seq<string>, pick: nat -> Entry)
    requires DrawsFromLists(pick)
    ensures Blocklist(wallets, pick).Keys == set w | w in wallets && IsValidAddress(w) :: Lower(w)
    ensures forall k :: k in Blocklist(wallets, pick) ==> IsValidAddress(k) && Lower(k) == k
    ensures forall k :: k in Blocklist(wallets, pick) ==>
      Blocklist(wallets, pick)[k].reason in REASONS && Blocklist(wallets, pick)[k].source in SOURCES
    ensures |Blocklist(wallets, pick)| <= |Accepted(wallets)| <= |wallets|
  {
    BlocklistKeys(wallets, pick);
    forall k | k in Blocklist(wallets, pick) ensures IsValidAddress(k) && Lower(k) == k {
      KeysCanonical(wallets, pick, k);
    }
    EntriesFromLists(wallets, pick);
    BlocklistSize(wallets, pick);
  }

  /**
   * `handle_wallets` up to the JSON rendering: the dictionary built from the
   * candidate lines of the message, with its keys in the order it holds them.
   */
  method HandleWallets(text: string, pick: nat -> Entry) returns (result: map<string, Entry>, order: seq<string>)
    requires DrawsFromLists(pick)
    ensures result == Blocklist(Candidates(text), pick)
    ensures order == KeyOrder(Candidates(text))
    ensures result.Keys == set w | w in Candidates(text) && IsValidAddress(w) :: Lower(w)
    ensures forall k :: k in result ==> IsValidAddress(k) && Lower(k) == k
    ensures forall k :: k in result ==> result[k].reason in REASONS && result[k].source in SOURCES
    ensures |result| <= |Accepted(Candidates(text))| <= |Candidates(text)|
    ensures forall k :: k in order <==> k in result
    ensures |order| == |result|
  {
    var wallets := Candidates(text);
    result, order := BuildBlocklist(wallets, pick);
    BlocklistProperties(wallets, pick);
    KeyOrderKeys(wallets, pick);
  }

  /**
   * The loop of `handle_wallets`: inserts, or overwrites, one lower-cased key
   * per accepted candidate, in order. `order` is the dictionary's key order:
   * a new key goes to the end, an overwritten one stays where it was.
   */
  method BuildBlocklist(wallets: seq<string>, pick: nat -> Entry) returns (result: map<string, Entry>, order: seq<string>)
    ensures result == Blocklist(wallets, pick)
    ensures order == KeyOrder(wallets)
  {
    result, order := map[], [];
    for i := 0 to |wallets|
      invariant result == Blocklist(wallets[..i], pick)
      invariant order == KeyOrder(wallets[..i])
      invariant result.Keys == set k | k in order
    {
      assert wallets[..i + 1][..i] == wallets[..i];
      var wallet := wallets[i];
      if IsValidAddress(wallet) {
        var key := Lower(wallet);
        if key !in result {
          order := order + [key];
        }
        result := result[key := pick(i)];
      }
    }
    assert wallets[..|wallets|] == wallets;
  }
}
