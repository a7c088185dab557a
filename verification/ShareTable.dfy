/** Reading the table of shares page by page: ShareRepository.ReadSharesBeforeCreated as
    PPLNSPaymentScheme uses it. */
module ShareTable {
  import opened Bits
  import opened Ledger

  /** A share of a miner; its score is the difficulty over the network difficulty. */
  datatype Share = Share(address: Address, score: real, created: int)

  /** ORDER BY created DESC. */
  predicate NewestFirst(rows: seq<Share>) {
    forall i, j :: 0 <= i < j < |rows| ==> rows[i].created >= rows[j].created
  }

  /** WHERE created < before, or <= before. */
  function Before(rows: seq<Share>, before: int, inclusive: bool): (r: seq<Share>)
    ensures |r| <= |rows|
    ensures forall i :: 0 <= i < |r| ==>
      r[i].created <= before && (r[i].created == before ==> inclusive) && r[i] in rows
  {
    if rows == [] then []
    else
      (if rows[0].created < before || (inclusive && rows[0].created == before) then [rows[0]] else [])
      + Before(rows[1..], before, inclusive)
  }

  /** Exactly the rows of the time asked for, as often as they are there. */
  lemma {:induction false} BeforeAre(rows: seq<Share>, before: int, inclusive: bool, x: Share)
    ensures multiset(Before(rows, before, inclusive))[x]
      == if x.created < before || (inclusive && x.created == before) then multiset(rows)[x] else 0
  {
    if rows != [] {
      hide Before;
      BeforeAre(rows[1..], before, inclusive, x);
      BeforeFirst(rows, before, inclusive);
      assert rows == [rows[0]] + rows[1..];
    }
  }

  /** The first page of what the query selects. */
  function ReadSharesBeforeCreated(table: seq<Share>, before: int, inclusive: bool, pageSize: nat): seq<Share> {
    var rows := Before(table, before, inclusive);
    if |rows| < pageSize then rows else rows[..pageSize]
  }

  lemma {:induction false} BeforeDrops(rows: seq<Share>, k: nat)
    requires k < |rows|
    ensures |Before(rows, rows[k].created, false)| < |rows|
  {
    if k > 0 {
      BeforeDrops(rows[1..], k - 1);
    }
  }

  /** What is read of these rows: after a full page, those that are older than its last share. */
  function Read(rows: seq<Share>, pageSize: nat): seq<Share>
    requires pageSize >= 1
    decreases |rows|
  {
    if |rows| < pageSize then rows
    else
      BeforeDrops(rows, pageSize - 1);
      rows[..pageSize] + Read(Before(rows, rows[pageSize - 1].created, false), pageSize)
  }

  lemma BeforeFirst(rows: seq<Share>, before: int, inclusive: bool)
    requires rows != []
    ensures
      var rest := Before(rows[1..], before, inclusive);
      Before(rows, before, inclusive)
        == if rows[0].created < before || (inclusive && rows[0].created == before) then [rows[0]] + rest else rest
  {
  }

  lemma {:induction false} BeforeTwice(table: seq<Share>, before: int, inclusive: bool, earlier: int)
    requires earlier <= before
    ensures Before(Before(table, before, inclusive), earlier, false) == Before(table, earlier, false)
  {
    if table != [] {
      hide Before;
      BeforeTwice(table[1..], before, inclusive, earlier);
      var rest := Before(table[1..], before, inclusive);
      BeforeFirst(table, before, inclusive);
      BeforeFirst(table, earlier, false);
      if table[0].created < before || (inclusive && table[0].created == before) {
        var list := [table[0]] + rest;
        assert list[1..] == rest;
        BeforeFirst(list, earlier, false);
      }
    }
  }

  lemma {:induction false} BeforeSorted(rows: seq<Share>, before: int, inclusive: bool)
    requires NewestFirst(rows)
    ensures NewestFirst(Before(rows, before, inclusive))
  {
    if rows != [] {
      BeforeSorted(rows[1..], before, inclusive);
    }
  }

  /** Older rows follow behind: none when the next one is as old, all of them when it is older. */
  lemma {:induction false} BeforeIsRest(rows: seq<Share>, k: nat)
    requires NewestFirst(rows) && 1 <= k < |rows| && rows[k - 1].created != rows[k].created
    ensures Before(rows, rows[k - 1].created, false) == rows[k..]
  {
    if k > 1 {
      BeforeIsRest(rows[1..], k - 1);
      assert rows[1..][k - 1..] == rows[k..];
    } else {
      BeforeAll(rows[1..], rows[0].created);
    }
  }

  lemma {:induction false} BeforeAll(rows: seq<Share>, before: int)
    requires forall i :: 0 <= i < |rows| ==> rows[i].created < before
    ensures Before(rows, before, false) == rows
  {
    if rows != [] {
      BeforeAll(rows[1..], before);
    }
  }

  /** No page ends between two shares of the same time, as far as the first `n` shares go. */
  predicate NoTieAtPageEnd(rows: seq<Share>, pageSize: nat, n: nat)
    requires pageSize >= 1 && n <= |rows|
  {
    forall i :: pageSize <= i < n && i % pageSize == 0 ==> rows[i - 1].created != rows[i].created
  }

  predicate ReadsFirst(rows: seq<Share>, pageSize: nat, n: nat)
    requires pageSize >= 1 && n <= |rows|
  {
    n <= |Read(rows, pageSize)| && Read(rows, pageSize)[..n] == rows[..n]
  }

  lemma ModAdd(i: nat, m: nat)
    requires m >= 1
    ensures (i + m) % m == i % m
  {
    AddMultiple(i, 1, m);
  }

  lemma TieShifts(rows: seq<Share>, pageSize: nat, n: nat)
    requires 1 <= pageSize < n <= |rows| && rows[pageSize - 1].created != rows[pageSize].created
    ensures NoTieAtPageEnd(rows, pageSize, n) <==> NoTieAtPageEnd(rows[pageSize..], pageSize, n - pageSize)
  {
    var rest := rows[pageSize..];
    if NoTieAtPageEnd(rows, pageSize, n) {
      forall i | pageSize <= i < n - pageSize && i % pageSize == 0 ensures rest[i - 1].created != rest[i].created {
        ModAdd(i, pageSize);
        assert rows[i + pageSize - 1].created != rows[i + pageSize].created;
      }
    }
    if NoTieAtPageEnd(rest, pageSize, n - pageSize) {
      forall i | pageSize <= i < n && i % pageSize == 0 ensures rows[i - 1].created != rows[i].created {
        if i > pageSize {
          ModAdd(i - pageSize, pageSize);
          assert i - pageSize >= pageSize by { NotBetween(i, pageSize); }
          assert rest[i - pageSize - 1].created != rest[i - pageSize].created;
        }
      }
    }
  }

  lemma NotBetween(i: nat, m: nat)
    requires 1 <= m < i && i % m == 0
    ensures i >= 2 * m
  {
    if i < 2 * m {
      DivModUnique(i, m, 1, i - m);
    }
  }

  lemma ReadUnfold(rows: seq<Share>, pageSize: nat)
    requires 1 <= pageSize <= |rows|
    ensures Read(rows, pageSize) == rows[..pageSize] + Read(Before(rows, rows[pageSize - 1].created, false), pageSize)
  {
    BeforeDrops(rows, pageSize - 1);
  }

  /** A tie at the end of the first page cuts the next share off. */
  lemma TieCuts(rows: seq<Share>, pageSize: nat, n: nat)
    requires 1 <= pageSize < n <= |rows| && ReadsFirst(rows, pageSize, n)
    ensures rows[pageSize - 1].created != rows[pageSize].created
  {
    hide Read, Before;
    var rest := Before(rows, rows[pageSize - 1].created, false);
    ReadUnfold(rows, pageSize);
    assert Read(rows, pageSize)[..n][pageSize] == rows[..n][pageSize];
    ReadFirst(rest, pageSize);
  }

  lemma NoTieContinues(rows: seq<Share>, pageSize: nat, n: nat)
    requires NewestFirst(rows) && 1 <= pageSize < n <= |rows|
    requires rows[pageSize - 1].created != rows[pageSize].created
    ensures ReadsFirst(rows, pageSize, n) <==> ReadsFirst(rows[pageSize..], pageSize, n - pageSize)
  {
    hide Read, Before;
    ReadUnfold(rows, pageSize);
    BeforeIsRest(rows, pageSize);
    assert rows == rows[..pageSize] + rows[pageSize..];
    PrefixShifts(rows[..pageSize], Read(rows[pageSize..], pageSize), rows[pageSize..], n);
  }

  lemma PrefixShifts(a: seq<Share>, r: seq<Share>, tail: seq<Share>, n: nat)
    requires |a| <= n <= |a| + |tail|
    ensures n <= |a + r| && (a + r)[..n] == (a + tail)[..n] <==> n - |a| <= |r| && r[..n - |a|] == tail[..n - |a|]
  {
    var m := n - |a|;
    assert (a + tail)[..n] == a + tail[..m];
    if m <= |r| {
      assert (a + r)[..n] == a + r[..m];
      SameTail(a, r[..m], tail[..m]);
    }
  }

  lemma SameTail(a: seq<Share>, b: seq<Share>, c: seq<Share>)
    ensures a + b == a + c <==> b == c
  {
    if a + b == a + c {
      assert b == (a + b)[|a|..] && c == (a + c)[|a|..];
    }
  }

  lemma ReadFirst(rows: seq<Share>, pageSize: nat)
    requires pageSize >= 1
    ensures |Read(rows, pageSize)| > 0 ==> |rows| > 0 && Read(rows, pageSize)[0] == rows[0]
  {
  }

  /** The first `n` shares are read, in order, if and only if no page ends between two of them that have the
      same time: the next query leaves out what is left of that time. */
  lemma {:induction false} ReadsExactlyWithoutTies(rows: seq<Share>, pageSize: nat, n: nat)
    requires NewestFirst(rows) && pageSize >= 1 && n <= |rows|
    ensures ReadsFirst(rows, pageSize, n) <==> NoTieAtPageEnd(rows, pageSize, n)
    decreases |rows|
  {
    hide ReadsFirst, NoTieAtPageEnd, Read, Before;
    if n <= pageSize {
      FirstPage(rows, pageSize, n);
    } else {
      if rows[pageSize - 1].created == rows[pageSize].created {
        TieHere(rows, pageSize, n);
        if ReadsFirst(rows, pageSize, n) {
          TieCuts(rows, pageSize, n);
        }
      } else {
        NoTieContinues(rows, pageSize, n);
        TieShifts(rows, pageSize, n);
        ReadsExactlyWithoutTies(rows[pageSize..], pageSize, n - pageSize);
      }
    }
  }

  lemma FirstPage(rows: seq<Share>, pageSize: nat, n: nat)
    requires pageSize >= 1 && n <= pageSize && n <= |rows|
    ensures ReadsFirst(rows, pageSize, n) && NoTieAtPageEnd(rows, pageSize, n)
  {
    hide Read, Before;
    if |rows| < pageSize {
      ReadShort(rows, pageSize);
    } else {
      ReadUnfold(rows, pageSize);
    }
  }

  lemma ReadShort(rows: seq<Share>, pageSize: nat)
    requires |rows| < pageSize
    ensures Read(rows, pageSize) == rows
  {
  }

  lemma TieHere(rows: seq<Share>, pageSize: nat, n: nat)
    requires 1 <= pageSize < n <= |rows| && rows[pageSize - 1].created == rows[pageSize].created
    ensures !NoTieAtPageEnd(rows, pageSize, n)
  {
    DivModUnique(pageSize, pageSize, 1, 0);
  }

  lemma {:induction false} BehindPage(rows: seq<Share>, k: nat)
    requires NewestFirst(rows) && 1 <= k <= |rows|
    ensures |Before(rows, rows[k - 1].created, false)| <= |rows| - k
  {
    if k > 1 {
      BehindPage(rows[1..], k - 1);
    }
  }

  lemma {:induction false} ReadsNoMore(rows: seq<Share>, pageSize: nat)
    requires pageSize >= 1 && NewestFirst(rows)
    ensures |Read(rows, pageSize)| <= |rows|
    decreases |rows|
  {
    if |rows| >= pageSize {
      BeforeDrops(rows, pageSize - 1);
      BehindPage(rows, pageSize);
      BeforeSorted(rows, rows[pageSize - 1].created, false);
      ReadsNoMore(Before(rows, rows[pageSize - 1].created, false), pageSize);
    }
  }
}
