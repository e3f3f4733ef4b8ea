/**
 The shortcut table as the link service sees it through its repository: rows
 are only ever appended, each with an id larger than every earlier one, a
 lookup returns the newest row for a word, and the listing shows the newest row
 of every word, newest first.
 */
module Repository {
  import opened Wrappers

  /** One row of the shortcut table. */
  datatype Shortcut = Shortcut(id: int, word: string, link: string, user: string, createdAt: int)

  /** One entry of the keyword listing. */
  datatype KeywordInfo = KeywordInfo(word: string, link: string, createdAt: int)

  function Info(row: Shortcut): KeywordInfo {
    KeywordInfo(row.word, row.link, row.createdAt)
  }

  /** Ids grow along the table, as the table's autoincrement key assigns them. */
  ghost predicate IdsIncreasing(rows: seq<Shortcut>) {
    forall i, j :: 0 <= i < j < |rows| ==> rows[i].id < rows[j].id
  }

  /** GetByWord: the newest row stored under exactly this word, if there is one. */
  function Lookup(rows: seq<Shortcut>, word: string): Option<Shortcut>
  {
    if rows == [] then None
    else if rows[|rows| - 1].word == word then Some(rows[|rows| - 1])
    else Lookup(rows[..|rows| - 1], word)
  }

  /**
   A lookup misses exactly when no row carries the word; a hit is a row of the
   table with that word, and, ids growing along the table, the one with the
   largest id among them.
   */
  lemma {:induction false} LookupSpec(rows: seq<Shortcut>, word: string)
    ensures Lookup(rows, word).None? <==> forall i :: 0 <= i < |rows| ==> rows[i].word != word
    ensures Lookup(rows, word).Some? ==> Lookup(rows, word).value in rows && Lookup(rows, word).value.word == word
    ensures Lookup(rows, word).Some? && IdsIncreasing(rows) ==>
              forall i :: 0 <= i < |rows| && rows[i].word == word ==> rows[i].id <= Lookup(rows, word).value.id
    decreases |rows|
  {
    if rows != [] && rows[|rows| - 1].word != word {
      var older := rows[..|rows| - 1];
      LookupSpec(older, word);
      assert forall i :: 0 <= i < |older| ==> older[i] == rows[i];
    }
  }

  /** The id the table gives the next row it stores. */
  function NextId(rows: seq<Shortcut>): int {
    if rows == [] then 1 else rows[|rows| - 1].id + 1
  }

  /** Appending a row with the next id keeps the ids growing. */
  lemma NextIdIncreases(rows: seq<Shortcut>, row: Shortcut)
    requires IdsIncreasing(rows) && row.id == NextId(rows)
    ensures IdsIncreasing(rows + [row])
  {
  }

  /** The newest row is the live one: a lookup of its word finds it, and no other word's lookup changes. */
  lemma LookupAfterAppend(rows: seq<Shortcut>, row: Shortcut, word: string)
    ensures Lookup(rows + [row], word) == if word == row.word then Some(row) else Lookup(rows, word)
  {
    assert (rows + [row])[..|rows|] == rows;
  }

  /**
   GetAllKeywords: the live row of every word (the one a lookup of that word
   returns), newest first.
   */
  function Listing(rows: seq<Shortcut>): seq<KeywordInfo>
    decreases |rows|
  {
    if rows == [] then []
    else
      var older := rows[..|rows| - 1];
      var newest := rows[|rows| - 1];
      [Info(newest)] + Listing(Without(older, newest.word))
  }

  /** The rows whose word is not `word`, in order. */
  function Without(rows: seq<Shortcut>, word: string): (r: seq<Shortcut>)
    ensures |r| <= |rows|
    ensures forall x :: x in r <==> x in rows && x.word != word
  {
    if rows == [] then []
    else if rows[0].word == word then Without(rows[1..], word)
    else [rows[0]] + Without(rows[1..], word)
  }

  /** Dropping a word from the table changes the lookup of no other word. */
  lemma {:induction false} LookupWithout(rows: seq<Shortcut>, word: string, other: string)
    requires other != word
    ensures Lookup(Without(rows, word), other) == Lookup(rows, other)
    decreases |rows|
  {
    if rows != [] {
      var older := rows[..|rows| - 1];
      var last := rows[|rows| - 1];
      assert rows == older + [last];
      WithoutAppend(older, last, word);
      LookupWithout(older, word, other);
      LookupAfterAppend(older, last, other);
      if last.word != word {
        LookupAfterAppend(Without(older, word), last, other);
      } else {
        assert Without(rows, word) == Without(older, word);
      }
    }
  }

  lemma {:induction false} WithoutAppend(rows: seq<Shortcut>, row: Shortcut, word: string)
    ensures Without(rows + [row], word) == Without(rows, word) + (if row.word == word then [] else [row])
  {
    if rows == [] {
      assert [] + [row] == [row];
    } else {
      assert (rows + [row])[1..] == rows[1..] + [row];
      WithoutAppend(rows[1..], row, word);
    }
  }

  /** The listing holds exactly the live rows. */
  lemma {:induction false} ListingIsLive(rows: seq<Shortcut>, k: KeywordInfo)
    ensures k in Listing(rows) <==> Lookup(rows, k.word).Some? && k == Info(Lookup(rows, k.word).value)
    decreases |rows|
  {
    if rows != [] {
      var older := rows[..|rows| - 1];
      var newest := rows[|rows| - 1];
      var rest := Without(older, newest.word);
      ListingIsLive(rest, k);
      if k.word != newest.word {
        LookupWithout(older, newest.word, k.word);
      } else {
        LookupSpec(rest, k.word);
      }
    }
  }

  /** The listing has one entry per word: no word is listed twice. */
  lemma {:induction false} ListingWordsDistinct(rows: seq<Shortcut>)
    ensures forall i, j :: 0 <= i < j < |Listing(rows)| ==> Listing(rows)[i].word != Listing(rows)[j].word
    decreases |rows|
  {
    if rows != [] {
      var older := rows[..|rows| - 1];
      var newest := rows[|rows| - 1];
      var rest := Without(older, newest.word);
      var listed := Listing(rest);
      ListingWordsDistinct(rest);
      forall k | k in listed
        ensures k.word != newest.word
      {
        ListingIsLive(rest, k);
        LookupSpec(rest, k.word);
      }
      assert Listing(rows) == [Info(newest)] + listed;
    }
  }
}
