/** The watchlist kept in the session state: a list of tickers that the app
    starts with, extends from the "Add a new ticker" box and shrinks from the
    "Remove ticker" box. */
module Session {
  import opened Optional

  /** The list the session starts with. */
  const DEFAULT_WATCHLIST: seq<string> := ["AAPL", "MSFT", "GOOGL"]

  /** `str.upper` on one character, restricted to ASCII letters. */
  function UpperChar(c: char): char {
    if 'a' <= c <= 'z' then (c as int - 'a' as int + 'A' as int) as char else c
  }

  predicate IsLowerAscii(c: char) {
    'a' <= c <= 'z'
  }

  /** `str.upper` on ASCII text: the same length, every lower-case letter
      replaced by its capital, every other character kept. */
  function Upper(s: string): (r: string)
    ensures |r| == |s|
    ensures forall i :: 0 <= i < |s| ==> r[i] == UpperChar(s[i])
  {
    if s == [] then [] else [UpperChar(s[0])] + Upper(s[1..])
  }

  /** Upper-casing leaves no lower-case letter and is idempotent, so a ticker
      typed in any case is stored once in one spelling. */
  lemma UpperIsCanonical(s: string)
    ensures forall i :: 0 <= i < |Upper(s)| ==> !IsLowerAscii(Upper(s)[i])
    ensures Upper(Upper(s)) == Upper(s)
  {
  }

  /** Two inputs that differ only in the case of their letters give the same
      ticker. */
  lemma UpperIgnoresCase(s: string, t: string)
    requires |s| == |t|
    requires forall i :: 0 <= i < |s| ==> UpperChar(s[i]) == UpperChar(t[i])
    ensures Upper(s) == Upper(t)
  {
  }

  predicate NoDuplicates(s: seq<string>) {
    forall i, j :: 0 <= i < j < |s| ==> s[i] != s[j]
  }

  /** The list after pressing "Add Ticker" with `input` in the text box: the
      old list, possibly followed by the upper-cased ticker, which is then
      listed unless the input was empty. */
  function AfterAdd(list: seq<string>, input: string): (r: seq<string>)
    ensures list <= r && |r| <= |list| + 1
    ensures input != "" ==> Upper(input) in r
  {
    if input == "" then list
    else if Upper(input) in list then list
    else list + [Upper(input)]
  }

  /** The warning shown when the upper-cased ticker is already listed: it
      comes exactly when a non-empty input leaves the list unchanged. */
  function AddWarning(list: seq<string>, input: string): (r: Option<string>)
    ensures r.Some? <==> input != "" && AfterAdd(list, input) == list
    ensures r.Some? ==> r.value == Upper(input) + " is already in your watchlist."
  {
    if input != "" && Upper(input) in list then Some(Upper(input) + " is already in your watchlist.")
    else None
  }

  /** Adding never loses a ticker and never reorders the list: the old list is
      a prefix of the new one, which grows by at most the one upper-cased
      ticker, and which afterwards contains it unless the input was empty.  A
      duplicate-free list stays duplicate-free. */
  lemma AddKeepsList(list: seq<string>, input: string)
    ensures list <= AfterAdd(list, input) && |AfterAdd(list, input)| <= |list| + 1
    ensures input == "" ==> AfterAdd(list, input) == list
    ensures input != "" ==> Upper(input) in AfterAdd(list, input)
    ensures AfterAdd(list, input) != list ==> AfterAdd(list, input) == list + [Upper(input)] && Upper(input) !in list
    ensures NoDuplicates(list) ==> NoDuplicates(AfterAdd(list, input))
  {
  }

  /** Adding the same ticker twice is the same as adding it once; the second
      attempt is the one that warns. */
  lemma AddIdempotent(list: seq<string>, input: string)
    requires input != ""
    ensures AfterAdd(AfterAdd(list, input), input) == AfterAdd(list, input)
    ensures AddWarning(AfterAdd(list, input), input).Some?
  {
    assert Upper(input) in AfterAdd(list, input);
  }

  /** `list.remove(t)` for a listed `t` (on an absent one Python raises):
      the list without the first occurrence of `t`. */
  function RemoveFirst(list: seq<string>, t: string): (r: seq<string>)
    requires t in list
    ensures |r| == |list| - 1
  {
    if list[0] == t then list[1..]
    else
      assert t in list[1..];
      [list[0]] + RemoveFirst(list[1..], t)
  }

  /** The position of the first occurrence of `t` (`list.index(t)`). */
  function FirstIndex(list: seq<string>, t: string): (i: nat)
    requires t in list
    ensures i < |list| && list[i] == t && t !in list[..i]
  {
    if list[0] == t then 0
    else
      assert t in list[1..];
      var j := FirstIndex(list[1..], t);
      assert list[..j + 1] == [list[0]] + list[1..][..j];
      j + 1
  }

  /** Removing deletes exactly the first occurrence of the ticker and keeps
      every other entry in its original order. */
  lemma {:induction false} RemoveFirstSplits(list: seq<string>, t: string)
    requires t in list
    ensures RemoveFirst(list, t) == list[..FirstIndex(list, t)] + list[FirstIndex(list, t) + 1..]
  {
    if list[0] != t {
      assert t in list[1..];
      RemoveFirstSplits(list[1..], t);
      var j := FirstIndex(list[1..], t);
      assert list[..j + 1] == [list[0]] + list[1..][..j];
      assert list[j + 2..] == list[1..][j + 1..];
    }
  }

  /** In a duplicate-free list, removing a ticker takes it out entirely and
      leaves the list duplicate-free. */
  lemma {:induction false} RemoveKeepsDistinct(list: seq<string>, t: string)
    requires t in list
    requires NoDuplicates(list)
    ensures t !in RemoveFirst(list, t)
    ensures NoDuplicates(RemoveFirst(list, t))
    ensures forall u :: u != t ==> (u in RemoveFirst(list, t) <==> u in list)
  {
    if list != [] {
      assert NoDuplicates(list[1..]) by {
        forall i, j | 0 <= i < j < |list[1..]| ensures list[1..][i] != list[1..][j] {
          assert list[1..][i] == list[i + 1] && list[1..][j] == list[j + 1];
        }
      }
      if list[0] == t {
        assert t !in list[1..] by {
          forall j | 0 <= j < |list[1..]| ensures list[1..][j] != t {
            assert list[1..][j] == list[j + 1];
          }
        }
      } else {
        RemoveKeepsDistinct(list[1..], t);
        var rest := RemoveFirst(list[1..], t);
        assert list[0] !in list[1..] by {
          forall j | 0 <= j < |list[1..]| ensures list[1..][j] != list[0] {
            assert list[1..][j] == list[j + 1];
          }
        }
        assert list[0] !in rest;
        assert RemoveFirst(list, t) == [list[0]] + rest;
        forall u | u != t ensures u in RemoveFirst(list, t) <==> u in list {
          assert u in list <==> u == list[0] || u in list[1..] by {
            assert list == [list[0]] + list[1..];
          }
        }
      }
    }
  }

  /** `st.session_state.watchlist`. */
  class Watchlist {
    var tickers: seq<string>

    /** The first run of the session installs the default list. */
    constructor ()
      ensures tickers == DEFAULT_WATCHLIST && NoDuplicates(tickers)
    {
      tickers := DEFAULT_WATCHLIST;
    }

    /** "Add Ticker" pressed with `input` in the box: nothing happens for an
        empty box; otherwise the upper-cased ticker is appended unless it is
        already listed, in which case the list is unchanged and a warning is
        returned. */
    method Add(input: string) returns (warning: Option<string>)
      modifies this
      ensures tickers == AfterAdd(old(tickers), input)
      ensures warning == AddWarning(old(tickers), input)
      ensures input == "" ==> tickers == old(tickers) && warning == None
      ensures input != "" && Upper(input) !in old(tickers) ==>
        tickers == old(tickers) + [Upper(input)] && warning == None
      ensures input != "" && Upper(input) in old(tickers) ==>
        tickers == old(tickers) && warning == Some(Upper(input) + " is already in your watchlist.")
      ensures NoDuplicates(old(tickers)) ==> NoDuplicates(tickers)
    {
      warning := None;
      if input != "" {
        var tickerUpper := Upper(input);
        if tickerUpper !in tickers {
          tickers := tickers + [tickerUpper];
        } else {
          warning := Some(tickerUpper + " is already in your watchlist.");
        }
      }
      AddKeepsList(old(tickers), input);
    }

    /** "Remove Ticker" pressed with `selected` chosen in the select box,
        which offers only listed tickers: its first occurrence is removed and
        the others keep their order. */
    method Remove(selected: string)
      requires selected in tickers
      modifies this
      ensures tickers == RemoveFirst(old(tickers), selected)
      ensures tickers == old(tickers)[..FirstIndex(old(tickers), selected)] +
                         old(tickers)[FirstIndex(old(tickers), selected) + 1..]
      ensures |tickers| == |old(tickers)| - 1
      ensures NoDuplicates(old(tickers)) ==> NoDuplicates(tickers) && selected !in tickers
    {
      RemoveFirstSplits(tickers, selected);
      if NoDuplicates(tickers) {
        RemoveKeepsDistinct(tickers, selected);
      }
      tickers := RemoveFirst(tickers, selected);
    }
  }
}
