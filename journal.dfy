/** The Single Responsibility example: a journal that numbers its entries
    in the order they are added and never reuses a number. */
module SingleResponsibility {
  import opened Wrappers
  import opened Strings

  /** Reads an entry back into its number and its text; `None` for a string
      that is not laid out as `FormatEntry` lays it out. */
  function ParseEntry(e: string): Option<(nat, string)> {
    match FirstIndex(e, ':')
    case None => None
    case Some(k) =>
      if Canonical(e[..k]) && k + 2 <= |e| && e[k + 1] == ' '
      then Some((ParseDecimal(e[..k]), e[k + 2..]))
      else None
  }

  /** The creation number an entry carries (0, which no entry carries,
      for a string that is not an entry). */
  function NumberOf(e: string): nat {
    match ParseEntry(e)
    case Some(p) => p.0
    case None => 0
  }

  /** The text `addEntry` stores for entry number `n`: `${n}: ${text}`.
      It reads back as exactly the number and text it was made from. */
  function FormatEntry(n: nat, text: string): (e: string)
    ensures ParseEntry(e) == Some((n, text))
    ensures NumberOf(e) == n
  {
    var d := DecimalString(n);
    var e := d + ": " + text;
    assert e[..|d|] == d && e[|d|] == ':' && e[|d| + 1] == ' ' && e[|d| + 2..] == text;
    assert forall j | 0 <= j < |d| :: e[j] == d[j] && IsDigit(d[j]) && e[j] != ':';
    assert FirstIndex(e, ':') == Some(|d|);
    e
  }

  /** Conversely, a string that reads as an entry is exactly the entry made
      from what it reads as; with the contract of `FormatEntry`, `ParseEntry(e) ==
      Some((n, t))` holds exactly when `e == FormatEntry(n, t)`. */
  lemma FormatParsedEntry(e: string)
    requires ParseEntry(e).Some?
    ensures FormatEntry(ParseEntry(e).value.0, ParseEntry(e).value.1) == e
  {
    var k := FirstIndex(e, ':').value;
    DecimalOfParse(e[..k]);
    assert e == e[..k] + [e[k]] + [e[k + 1]] + e[k + 2..];
  }

  /** The journal's invariant on its entries: each carries a creation number
      between 1 and `count`, and the numbers rise strictly from first to
      last (a removal keeps the order of what remains). */
  ghost predicate Numbered(entries: seq<string>, count: nat) {
    && (forall i | 0 <= i < |entries| :: ParseEntry(entries[i]).Some? && 1 <= NumberOf(entries[i]) <= count)
    && (forall i, j | 0 <= i < j < |entries| :: NumberOf(entries[i]) < NumberOf(entries[j]))
  }

  /** Numbers are never reused, so there can be no more entries than
      entries ever added. */
  lemma {:induction false} NumberedBound(entries: seq<string>, count: nat)
    requires Numbered(entries, count)
    ensures |entries| <= count
  {
    if entries != [] {
      var p := entries[..|entries| - 1];
      var last := NumberOf(entries[|entries| - 1]);
      assert Numbered(p, last - 1) by {
        forall i | 0 <= i < |p| ensures NumberOf(p[i]) < last {
          assert p[i] == entries[i];
        }
      }
      NumberedBound(p, last - 1);
    }
  }

  /** `entries.splice(index, 1)` for an index that is not negative: the
      element at `index` is removed when there is one, and nothing changes
      otherwise. */
  function RemoveAt(entries: seq<string>, index: nat): (r: seq<string>)
    ensures index < |entries| ==> |r| == |entries| - 1
    ensures index < |entries| ==> forall k | 0 <= k < index :: r[k] == entries[k]
    ensures index < |entries| ==> forall k | index <= k < |r| :: r[k] == entries[k + 1]
    ensures index < |entries| ==> multiset(r) + multiset{entries[index]} == multiset(entries)
    ensures index >= |entries| ==> r == entries
  {
    if index < |entries| then
      assert entries == entries[..index] + [entries[index]] + entries[index + 1..];
      entries[..index] + entries[index + 1..]
    else entries
  }

  /** Removing an entry keeps the invariant, with the same count. */
  lemma NumberedRemove(entries: seq<string>, count: nat, index: nat)
    requires Numbered(entries, count)
    ensures Numbered(RemoveAt(entries, index), count)
  {
  }

  /** Adding entry number `count + 1` keeps the invariant. */
  lemma NumberedAdd(entries: seq<string>, count: nat, text: string)
    requires Numbered(entries, count)
    ensures Numbered(entries + [FormatEntry(count + 1, text)], count + 1)
  {
  }

  class Journal {
    var entries: seq<string>
    var count: nat

    ghost predicate Valid()
      reads this
    {
      Numbered(entries, count)
    }

    constructor ()
      ensures Valid()
      ensures entries == [] && count == 0
    {
      entries := [];
      count := 0;
    }

    /** Numbers the text with the next count and appends it. */
    method AddEntry(text: string)
      requires Valid()
      modifies this
      ensures Valid()
      ensures count == old(count) + 1
      ensures entries == old(entries) + [FormatEntry(count, text)]
      ensures NumberOf(entries[|entries| - 1]) == count
      ensures forall i | 0 <= i < |old(entries)| :: NumberOf(old(entries)[i]) < count
      ensures |entries| <= count
    {
      NumberedAdd(entries, count, text);
      count := count + 1;
      entries := entries + [FormatEntry(count, text)];
      NumberedBound(entries, count);
    }

    /** Removes the entry at `index`, if there is one; the count stays. */
    method RemoveEntry(index: nat)
      requires Valid()
      modifies this
      ensures Valid()
      ensures count == old(count)
      ensures entries == RemoveAt(old(entries), index)
      ensures |entries| <= count
    {
      NumberedRemove(entries, count, index);
      if index < |entries| {
        entries := entries[..index] + entries[index + 1..];
      }
      NumberedBound(entries, count);
    }

    /** The entries joined with line breaks. */
    function ToString(): (r: string)
      reads this
      ensures |entries| == 0 ==> r == ""
      ensures |entries| == 1 ==> r == entries[0]
    {
      Join(entries, "\n")
    }
  }

  /** The journal's text splits at line breaks back into its entries, when
      there is at least one entry and no entry contains a line break. */
  lemma ToStringSplit(j: Journal)
    requires |j.entries| > 0
    requires forall i | 0 <= i < |j.entries| :: '\n' !in j.entries[i]
    ensures Split(j.ToString(), '\n') == j.entries
  {
    SplitJoin(j.entries, '\n');
  }
}
