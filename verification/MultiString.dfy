/** The double-NUL-terminated list of strings that the store prints into the
    registry value EnforcedSids and that RegistryReader::GetMultiSZ parses. */
module MultiString {
  import opened Basics

  predicate NoneEmpty(items: seq<Sid>) {
    forall i :: 0 <= i < |items| ==> items[i] != ""
  }

  /** Each item with its terminator. */
  function Terminated(items: seq<Sid>): string {
    if items == [] then "" else items[0] + [NUL] + Terminated(items[1..])
  }

  function Print(items: seq<Sid>): string {
    if items == [] then [NUL, NUL] else Terminated(items) + [NUL]
  }

  /** Index of the first NUL (wcslen), or the length when there is none. */
  function Length(s: string): (n: nat)
    ensures n <= |s| && NUL !in s[..n]
    ensures n < |s| ==> s[n] == NUL
  {
    if s == "" || s[0] == NUL then 0
    else
      var n := 1 + Length(s[1..]);
      assert s[..n] == [s[0]] + s[1..][..n - 1];
      n
  }

  /** The items of a buffer up to the first empty one. */
  function Items(s: string): seq<Sid> {
    var n := Length(s);
    if n == 0 then []
    else if n == |s| then [s]
    else [s[..n]] + Items(s[n + 1..])
  }

  /** What a reader sees in the stored characters, or in a missing value. The
      buffer is zeroed memory two characters longer than the value. */
  function Parse(stored: Option<string>): seq<Sid> {
    if stored.None? || stored.value == "" then [] else Items(stored.value + [NUL, NUL])
  }

  /** RegistryReader.cpp, GetMultiSZ. */
  method GetMultiSZ(stored: Option<string>) returns (result: seq<Sid>)
    ensures result == Parse(stored)
  {
    if stored.None? || |stored.value| < 1 {
      return [];
    }
    result := WalkBuffer(stored.value + [NUL, NUL]);
  }

  method WalkBuffer(buffer: string) returns (result: seq<Sid>)
    requires |buffer| >= 2 && buffer[|buffer| - 1] == buffer[|buffer| - 2] == NUL
    ensures result == Items(buffer)
  {
    result := [];
    var cursor := 0;
    while buffer[cursor] != NUL
      invariant 0 <= cursor < |buffer|
      invariant result + Items(buffer[cursor..]) == Items(buffer)
      decreases |buffer| - cursor
    {
      var item, next := TakeItem(buffer, cursor);
      AppendItem(result, item, Items(buffer[next..]));
      result := result + [item];
      cursor := next;
    }
  }

  /** One emplace_back, and the cursor behind the terminator of the item. */
  method TakeItem(buffer: string, cursor: nat) returns (item: Sid, next: nat)
    requires |buffer| >= 2 && buffer[|buffer| - 1] == buffer[|buffer| - 2] == NUL
    requires cursor < |buffer| && buffer[cursor] != NUL
    ensures cursor < next < |buffer|
    ensures Items(buffer[cursor..]) == [item] + Items(buffer[next..])
  {
    var length := CStringLength(buffer, cursor);
    FirstItem(buffer, cursor, length);
    item := buffer[cursor..cursor + length];
    next := cursor + length + 1;
  }

  function Followed(item: string, rest: string): seq<Sid>
    requires NUL !in item
  {
    [item] + Items(rest)
  }

  lemma FirstItem(buffer: string, cursor: nat, length: nat)
    requires |buffer| >= 2 && buffer[|buffer| - 1] == buffer[|buffer| - 2] == NUL
    requires cursor < |buffer| && buffer[cursor] != NUL && length == Length(buffer[cursor..])
    ensures cursor + length + 1 < |buffer| && NUL !in buffer[cursor..cursor + length]
    ensures Items(buffer[cursor..]) == Followed(buffer[cursor..cursor + length], buffer[cursor + length + 1..])
  {
    var s := buffer[cursor..];
    TerminatorFollows(s);
    assert s[length + 1..] == buffer[cursor + length + 1..];
    assert s[..length] == buffer[cursor..cursor + length];
  }

  method CStringLength(buffer: string, cursor: nat) returns (length: nat)
    requires cursor < |buffer| && buffer[|buffer| - 1] == NUL
    ensures length == Length(buffer[cursor..])
  {
    length := 0;
    while buffer[cursor + length] != NUL
      invariant cursor + length < |buffer|
      invariant length + Length(buffer[cursor + length..]) == Length(buffer[cursor..])
      decreases |buffer| - length
    {
      assert buffer[cursor + length..][1..] == buffer[cursor + length + 1..];
      length := length + 1;
    }
  }

  lemma AppendItem(result: seq<Sid>, item: Sid, others: seq<Sid>)
    ensures result + [item] + others == result + ([item] + others)
  {
  }

  /** Two terminators at the end leave one after every item. */
  lemma {:induction false} TerminatorFollows(s: string)
    requires |s| >= 1 && s[|s| - 1] == NUL && s[0] != NUL && |s| >= 2 && s[|s| - 2] == NUL
    ensures Length(s) + 1 < |s|
  {
    if s[1] != NUL {
      TerminatorFollows(s[1..]);
    }
  }

  lemma {:induction false} LengthOfItem(item: Sid, rest: string)
    ensures Length(item + [NUL] + rest) == |item|
  {
    var s := item + [NUL] + rest;
    if item != "" {
      LengthOfItem(item[1..], rest);
      assert s[1..] == item[1..] + [NUL] + rest;
    }
  }

  lemma {:induction false} ItemsOfTerminated(items: seq<Sid>, after: string)
    requires NoneEmpty(items) && |after| >= 1 && after[0] == NUL
    ensures Items(Terminated(items) + after) == items
  {
    if items != [] {
      var rest := Terminated(items[1..]) + after;
      assert Terminated(items) + after == items[0] + [NUL] + rest;
      LengthOfItem(items[0], rest);
      ItemsOfTerminated(items[1..], after);
      assert (items[0] + [NUL] + rest)[|items[0]| + 1..] == rest;
      assert (items[0] + [NUL] + rest)[..|items[0]|] == items[0];
    } else {
      assert Terminated(items) + after == after;
    }
  }

  /** A printed list is well-formed: the items in their order, each with its
      terminator, and at least two terminators at the end. */
  lemma PrintIsTerminated(items: seq<Sid>)
    ensures Terminated(items) <= Print(items)
    ensures
      var s := Print(items);
      |s| == |Terminated(items)| + (if items == [] then 2 else 1) && |s| >= 2 && s[|s| - 1] == s[|s| - 2] == NUL
  {
    if items != [] { LastTerminator(items); }
  }

  lemma {:induction false} LastTerminator(items: seq<Sid>)
    requires items != []
    ensures Terminated(items) != "" && Terminated(items)[|Terminated(items)| - 1] == NUL
  {
    if |items| > 1 {
      LastTerminator(items[1..]);
    } else {
      assert Terminated(items) == items[0] + [NUL] + "";
    }
  }

  /** Reading back what was printed gives the same list, the empty one included. */
  lemma ParseInvertsPrint(items: seq<Sid>)
    requires NoneEmpty(items)
    ensures Parse(Some(Print(items))) == items
  {
    if items != [] {
      ItemsOfTerminated(items, [NUL, NUL, NUL]);
      assert Print(items) + [NUL, NUL] == Terminated(items) + [NUL, NUL, NUL];
    }
  }

  /** The items stand at the beginning of the buffer, each with its terminator and
      none of them empty, and another terminator ends them. */
  predicate StandFirst(items: seq<Sid>, s: string) {
    && NoneEmpty(items) && |Terminated(items)| < |s|
    && s[..|Terminated(items)|] == Terminated(items) && s[|Terminated(items)|] == NUL
  }

  lemma StandsFirst(item: Sid, items: seq<Sid>, rest: string)
    requires item != "" && StandFirst(items, rest)
    ensures StandFirst([item] + items, item + [NUL] + rest)
  {
    var s, all := item + [NUL] + rest, [item] + items;
    assert all[1..] == items;
    assert s[..|item| + 1 + |Terminated(items)|] == item + [NUL] + rest[..|Terminated(items)|];
  }

  /** So they do in any buffer that ends in two terminators. */
  lemma {:induction false} ItemsAreInPlace(s: string)
    requires |s| >= 2 && s[|s| - 1] == s[|s| - 2] == NUL
    ensures StandFirst(Items(s), s)
    decreases |s|
  {
    if s[0] != NUL {
      TerminatorFollows(s);
      var n := Length(s);
      var rest := s[n + 1..];
      if |rest| >= 2 {
        ItemsAreInPlace(rest);
      } else {
        assert rest == [NUL] && Items(rest) == [];
      }
      StandsFirst(s[..n], Items(rest), rest);
      assert s == s[..n] + [NUL] + rest;
    }
  }
}
