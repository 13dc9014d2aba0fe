/**
 * `getPlayerCharacterData`, after its query: from the reply for one event and
 * one entrant, resolve the distinct names of the characters that entrant
 * selected.
 *
 * The reply holds the characters of the event's videogame (possibly absent) and
 * the entrant's sets; a set holds games (possibly absent), a game holds
 * selections (possibly absent).  The query itself, issued through `execute`, is
 * replaced by the reply it eventually returns.
 */
module Selections {

  import opened Options

  const CHARACTER: string := "CHARACTER"

  datatype Character = Character(id: int, name: string)
  datatype Selection = Selection(entrantId: int, selectionType: string, selectionValue: int)
  datatype Game = Game(selections: Option<seq<Selection>>)
  datatype SetNode = SetNode(games: Option<seq<Game>>)
  datatype Reply = Reply(characters: Option<seq<Character>>, sets: seq<SetNode>)

  /**
   * The function's result: the list of distinct names, or the `KeyError` raised
   * when a selected value is not a known character id.
   */
  datatype Resolution = Found(names: seq<string>) | MissingKey(value: int)

  /** Progress of the scan over the games. */
  datatype Scan = Scanned(picked: seq<string>) | NoSelections | Missing(value: int)

  /** `not characters`: the list is absent or empty. */
  predicate NoCharacters(reply: Reply)
  {
    reply.characters == None || reply.characters.value == []
  }

  /** `not game['selections']`: the game's selections are absent or empty. */
  predicate Untracked(g: Game)
  {
    g.selections == None || g.selections.value == []
  }

  /** A selection the entrant made of a character. */
  predicate Picked(s: Selection, entrantId: int)
  {
    s.entrantId == entrantId && s.selectionType == CHARACTER
  }

  predicate NoDuplicates<T(==)>(s: seq<T>)
  {
    forall i, j :: 0 <= i < j < |s| ==> s[i] != s[j]
  }

  /** The id -> name dictionary built from the character list, one entry after another. */
  function CharacterNames(chars: seq<Character>): map<int, string>
  {
    if chars == [] then map[]
    else
      var last := chars[|chars| - 1];
      CharacterNames(chars[..|chars| - 1])[last.id := last.name]
  }

  /** The games of all sets whose games are present, in set order. */
  function GamesOf(sets: seq<SetNode>): seq<Game>
  {
    if sets == [] then []
    else
      var last := sets[|sets| - 1];
      GamesOf(sets[..|sets| - 1]) + (if last.games.Some? then last.games.value else [])
  }

  /** The scan of one game's selections, appending to `acc` the names picked by the entrant. */
  function ScanSelections(sels: seq<Selection>, names: map<int, string>, entrantId: int, acc: seq<string>): Scan
  {
    if sels == [] then Scanned(acc)
    else if Picked(sels[0], entrantId) then
      if sels[0].selectionValue in names
      then ScanSelections(sels[1..], names, entrantId, acc + [names[sels[0].selectionValue]])
      else Missing(sels[0].selectionValue)
    else ScanSelections(sels[1..], names, entrantId, acc)
  }

  /** The scan over the games; the first game without selections ends it. */
  function ScanGames(games: seq<Game>, names: map<int, string>, entrantId: int, acc: seq<string>): Scan
  {
    if games == [] then Scanned(acc)
    else if Untracked(games[0]) then NoSelections
    else match ScanSelections(games[0].selections.value, names, entrantId, acc)
      case Scanned(more) => ScanGames(games[1..], names, entrantId, more)
      case other => other
  }

  /** `list(set(xs))`: the elements of xs, each once. */
  function Distinct(xs: seq<string>): (d: seq<string>)
    ensures NoDuplicates(d)
    ensures forall x :: x in d <==> x in xs
  {
    if xs == [] then []
    else
      var init := Distinct(xs[..|xs| - 1]);
      var last := xs[|xs| - 1];
      assert forall x :: x in xs <==> x in xs[..|xs| - 1] || x == last;
      if last in init then init else init + [last]
  }

  /** What the source computes from a reply. */
  function Resolve(reply: Reply, entrantId: int): Resolution
  {
    if NoCharacters(reply) then Found([])
    else match ScanGames(GamesOf(reply.sets), CharacterNames(reply.characters.value), entrantId, [])
      case Scanned(picked) => Found(Distinct(picked))
      case NoSelections => Found([])
      case Missing(v) => MissingKey(v)
  }

  /** The dictionary's keys are the ids of the character list. */
  lemma {:induction false} CharacterNamesKeys(chars: seq<Character>)
    ensures CharacterNames(chars).Keys == set i | 0 <= i < |chars| :: chars[i].id
  {
    if chars != [] {
      var init, last := chars[..|chars| - 1], chars[|chars| - 1];
      CharacterNamesKeys(init);
      assert forall i :: 0 <= i < |init| ==> init[i] == chars[i];
      assert (set i | 0 <= i < |chars| :: chars[i].id) == (set i | 0 <= i < |init| :: init[i].id) + {last.id};
    }
  }

  /** An id listed more than once maps to the name of its last occurrence. */
  lemma {:induction false} CharacterNamesLastWins(chars: seq<Character>)
    ensures forall i :: 0 <= i < |chars| && (forall j :: i < j < |chars| ==> chars[j].id != chars[i].id)
                        ==> chars[i].id in CharacterNames(chars) && CharacterNames(chars)[chars[i].id] == chars[i].name
  {
    if chars != [] {
      var init, last := chars[..|chars| - 1], chars[|chars| - 1];
      CharacterNamesLastWins(init);
      CharacterNamesKeys(init);
      forall i | 0 <= i < |chars| && (forall j :: i < j < |chars| ==> chars[j].id != chars[i].id)
        ensures chars[i].id in CharacterNames(chars) && CharacterNames(chars)[chars[i].id] == chars[i].name
      {
        if i < |init| {
          assert init[i] == chars[i];
          assert chars[i].id != last.id;
          assert forall j :: i < j < |init| ==> init[j] == chars[j];
        }
      }
    }
  }

  /** The dictionary loop: `char_dict[char['id']] = char['name']` for each character in order. */
  method BuildCharacterDict(characters: seq<Character>) returns (charDict: map<int, string>)
    ensures charDict == CharacterNames(characters)
  {
    charDict := map[];
    for i := 0 to |characters|
      invariant charDict == CharacterNames(characters[..i])
    {
      assert characters[..i + 1][..i] == characters[..i];
      charDict := charDict[characters[i].id := characters[i].name];
    }
    assert characters[..|characters|] == characters;
  }

  /** The flattening loop: the games of every set whose games are present, appended in order. */
  method CollectGames(sets: seq<SetNode>) returns (games: seq<Game>)
    ensures games == GamesOf(sets)
  {
    games := [];
    for i := 0 to |sets|
      invariant games == GamesOf(sets[..i])
    {
      assert sets[..i + 1][..i] == sets[..i];
      if sets[i].games.Some? {
        games := games + sets[i].games.value;
      }
    }
    assert sets[..|sets|] == sets;
  }

  /**
   * The imperative resolver: build the dictionary, flatten the sets into games,
   * scan every game's selections (returning the empty list at the first game
   * without selections) and return the distinct names.
   */
  method GetPlayerCharacterData(reply: Reply, entrantId: int) returns (r: Resolution)
    ensures NoCharacters(reply) ==> r == Found([])
    ensures r == Resolve(reply, entrantId)
  {
    if NoCharacters(reply) {
      return Found([]);
    }
    var charDict := BuildCharacterDict(reply.characters.value);
    var games := CollectGames(reply.sets);

    var playerCharacters: seq<string> := [];
    for i := 0 to |games|
      invariant ScanGames(games[i..], charDict, entrantId, playerCharacters)
             == ScanGames(games, charDict, entrantId, [])
    {
      if games[i].selections == None || games[i].selections.value == [] {
        return Found([]);
      }
      var selections := games[i].selections.value;
      ghost var before := playerCharacters;
      for j := 0 to |selections|
        invariant ScanSelections(selections[j..], charDict, entrantId, playerCharacters)
               == ScanSelections(selections, charDict, entrantId, before)
      {
        var s := selections[j];
        if s.entrantId == entrantId && s.selectionType == CHARACTER {
          if s.selectionValue !in charDict {
            return MissingKey(s.selectionValue);
          }
          playerCharacters := playerCharacters + [charDict[s.selectionValue]];
        }
      }
      assert games[i..][1..] == games[i + 1..];
    }
    return Found(Distinct(playerCharacters));
  }

  /** The values of the selections the entrant made of a character, in order. */
  function PickedValues(sels: seq<Selection>, entrantId: int): seq<int>
  {
    if sels == [] then []
    else (if Picked(sels[0], entrantId) then [sels[0].selectionValue] else [])
         + PickedValues(sels[1..], entrantId)
  }

  /** The picked values over all games whose selections are present, in game order. */
  function OwnedValues(games: seq<Game>, entrantId: int): seq<int>
  {
    if games == [] then []
    else (if games[0].selections.Some? then PickedValues(games[0].selections.value, entrantId) else [])
         + OwnedValues(games[1..], entrantId)
  }

  /** Every game carries selections. */
  predicate AllTracked(games: seq<Game>)
  {
    forall i :: 0 <= i < |games| ==> !Untracked(games[i])
  }

  predicate KeysKnown(values: seq<int>, names: map<int, string>)
  {
    forall i :: 0 <= i < |values| ==> values[i] in names
  }

  /** The name of each value, in order. */
  function Lookup(values: seq<int>, names: map<int, string>): (r: seq<string>)
    requires KeysKnown(values, names)
    ensures |r| == |values|
  {
    if values == [] then []
    else
      [names[values[0]]] + Lookup(values[1..], names)
  }

  lemma {:induction false} LookupAppend(a: seq<int>, b: seq<int>, names: map<int, string>)
    requires KeysKnown(a + b, names)
    ensures KeysKnown(a, names) && KeysKnown(b, names)
    ensures Lookup(a + b, names) == Lookup(a, names) + Lookup(b, names)
  {
    assert forall i :: 0 <= i < |a| ==> (a + b)[i] == a[i];
    assert forall i :: 0 <= i < |b| ==> (a + b)[|a| + i] == b[i];
    if a == [] {
      assert a + b == b;
    } else {
      assert (a + b)[1..] == a[1..] + b;
      LookupAppend(a[1..], b, names);
    }
  }

  lemma {:induction false} LookupMembers(values: seq<int>, names: map<int, string>, name: string)
    requires KeysKnown(values, names)
    ensures name in Lookup(values, names) <==> exists v :: v in values && names[v] == name
  {
    if values != [] {
      LookupMembers(values[1..], names, name);
      assert forall v :: v in values <==> v == values[0] || v in values[1..];
    }
  }

  lemma {:induction false} ScanSelectionsKnown(sels: seq<Selection>, names: map<int, string>, entrantId: int, acc: seq<string>)
    requires KeysKnown(PickedValues(sels, entrantId), names)
    ensures ScanSelections(sels, names, entrantId, acc) == Scanned(acc + Lookup(PickedValues(sels, entrantId), names))
  {
    if sels == [] {
      assert acc + [] == acc;
    } else {
      var v := sels[0].selectionValue;
      var rest := PickedValues(sels[1..], entrantId);
      if Picked(sels[0], entrantId) {
        assert PickedValues(sels, entrantId) == [v] + rest;
        LookupAppend([v], rest, names);
        ScanSelectionsKnown(sels[1..], names, entrantId, acc + [names[v]]);
        assert acc + [names[v]] + Lookup(rest, names) == acc + Lookup([v] + rest, names);
      } else {
        assert PickedValues(sels, entrantId) == rest;
        ScanSelectionsKnown(sels[1..], names, entrantId, acc);
      }
    }
  }

  lemma {:induction false} ScanSelectionsMissing(sels: seq<Selection>, names: map<int, string>, entrantId: int, acc: seq<string>)
    ensures !ScanSelections(sels, names, entrantId, acc).NoSelections?
    ensures ScanSelections(sels, names, entrantId, acc).Missing? ==>
      var v := ScanSelections(sels, names, entrantId, acc).value;
      v in PickedValues(sels, entrantId) && v !in names
  {
    if sels != [] {
      var v := sels[0].selectionValue;
      var rest := PickedValues(sels[1..], entrantId);
      if Picked(sels[0], entrantId) {
        assert PickedValues(sels, entrantId) == [v] + rest;
        if v in names {
          ScanSelectionsMissing(sels[1..], names, entrantId, acc + [names[v]]);
        }
      } else {
        assert PickedValues(sels, entrantId) == rest;
        ScanSelectionsMissing(sels[1..], names, entrantId, acc);
      }
    }
  }

  lemma {:induction false} AllTrackedTail(games: seq<Game>)
    requires games != []
    ensures AllTracked(games) <==> !Untracked(games[0]) && AllTracked(games[1..])
  {
    assert forall i :: 0 < i < |games| ==> games[i] == games[1..][i - 1];
  }

  /** One scanned game: the scan moves on to the next game with the names picked so far. */
  lemma ScanGamesStep(games: seq<Game>, names: map<int, string>, entrantId: int, acc: seq<string>, more: seq<string>)
    requires games != [] && !Untracked(games[0])
    requires ScanSelections(games[0].selections.value, names, entrantId, acc) == Scanned(more)
    ensures ScanGames(games, names, entrantId, acc) == ScanGames(games[1..], names, entrantId, more)
  {
  }

  lemma {:induction false} ScanGamesKnown(games: seq<Game>, names: map<int, string>, entrantId: int, acc: seq<string>)
    requires AllTracked(games)
    requires KeysKnown(OwnedValues(games, entrantId), names)
    ensures ScanGames(games, names, entrantId, acc) == Scanned(acc + Lookup(OwnedValues(games, entrantId), names))
  {
    if games == [] {
      assert acc + [] == acc;
    } else {
      AllTrackedTail(games);
      var sels := games[0].selections.value;
      var first := PickedValues(sels, entrantId);
      var rest := OwnedValues(games[1..], entrantId);
      assert OwnedValues(games, entrantId) == first + rest;
      LookupAppend(first, rest, names);
      ScanSelectionsKnown(sels, names, entrantId, acc);
      var more := acc + Lookup(first, names);
      ScanGamesStep(games, names, entrantId, acc, more);
      ScanGamesKnown(games[1..], names, entrantId, more);
      var l1, l2 := Lookup(first, names), Lookup(rest, names);
      assert (acc + l1) + l2 == acc + (l1 + l2);
    }
  }

  /**
   * The first game without selections ends the scan with "no selections",
   * provided every value looked up before it is a known id; picks in later
   * games are never looked up.
   */
  lemma {:induction false} ScanGamesUntracked(games: seq<Game>, names: map<int, string>, entrantId: int, acc: seq<string>, k: nat)
    requires k < |games| && Untracked(games[k]) && AllTracked(games[..k])
    requires KeysKnown(OwnedValues(games[..k], entrantId), names)
    ensures ScanGames(games, names, entrantId, acc) == NoSelections
  {
    if k > 0 {
      var prefix := games[..k];
      AllTrackedTail(prefix);
      assert prefix[0] == games[0];
      assert prefix[1..] == games[1..][..k - 1];
      var sels := games[0].selections.value;
      var first := PickedValues(sels, entrantId);
      var rest := OwnedValues(prefix[1..], entrantId);
      assert OwnedValues(prefix, entrantId) == first + rest;
      LookupAppend(first, rest, names);
      ScanSelectionsKnown(sels, names, entrantId, acc);
      var more := acc + Lookup(first, names);
      ScanGamesStep(games, names, entrantId, acc, more);
      assert games[1..][k - 1] == games[k];
      ScanGamesUntracked(games[1..], names, entrantId, more, k - 1);
    }
  }

  /** A scan of one game that completes has looked up every value the entrant picked there. */
  lemma {:induction false} ScanSelectionsScanned(sels: seq<Selection>, names: map<int, string>, entrantId: int, acc: seq<string>)
    ensures ScanSelections(sels, names, entrantId, acc).Scanned? ==> KeysKnown(PickedValues(sels, entrantId), names)
  {
    if sels != [] {
      var v := sels[0].selectionValue;
      var rest := PickedValues(sels[1..], entrantId);
      if Picked(sels[0], entrantId) {
        assert PickedValues(sels, entrantId) == [v] + rest;
        if v in names {
          ScanSelectionsScanned(sels[1..], names, entrantId, acc + [names[v]]);
          assert forall i :: 0 < i < |[v] + rest| ==> ([v] + rest)[i] == rest[i - 1];
        }
      } else {
        assert PickedValues(sels, entrantId) == rest;
        ScanSelectionsScanned(sels[1..], names, entrantId, acc);
      }
    }
  }

  /**
   * An unknown value among the picks of the games before the first game without
   * selections (or of all games, when k == |games|) ends the scan with the `KeyError`.
   */
  lemma {:induction false} ScanGamesUnknown(games: seq<Game>, names: map<int, string>, entrantId: int, acc: seq<string>, k: nat)
    requires k <= |games| && AllTracked(games[..k])
    requires !KeysKnown(OwnedValues(games[..k], entrantId), names)
    ensures ScanGames(games, names, entrantId, acc).Missing?
  {
    var prefix := games[..k];
    assert prefix != [];
    AllTrackedTail(prefix);
    assert prefix[0] == games[0];
    assert prefix[1..] == games[1..][..k - 1];
    var sels := games[0].selections.value;
    var first := PickedValues(sels, entrantId);
    var rest := OwnedValues(prefix[1..], entrantId);
    assert OwnedValues(prefix, entrantId) == first + rest;
    ScanSelectionsMissing(sels, names, entrantId, acc);
    ScanSelectionsScanned(sels, names, entrantId, acc);
    match ScanSelections(sels, names, entrantId, acc)
    case Scanned(more) =>
      assert !KeysKnown(rest, names);
      ScanGamesStep(games, names, entrantId, acc, more);
      ScanGamesUnknown(games[1..], names, entrantId, more, k - 1);
    case Missing(v) =>
  }

  lemma {:induction false} ScanGamesMissing(games: seq<Game>, names: map<int, string>, entrantId: int, acc: seq<string>)
    ensures ScanGames(games, names, entrantId, acc).Missing? ==>
      var v := ScanGames(games, names, entrantId, acc).value;
      v in OwnedValues(games, entrantId) && v !in names
  {
    if games != [] && !Untracked(games[0]) {
      var sels := games[0].selections.value;
      assert OwnedValues(games, entrantId) == PickedValues(sels, entrantId) + OwnedValues(games[1..], entrantId);
      ScanSelectionsMissing(sels, names, entrantId, acc);
      match ScanSelections(sels, names, entrantId, acc)
      case Scanned(more) =>
        ScanGamesMissing(games[1..], names, entrantId, more);
      case NoSelections =>
      case Missing(v) =>
    }
  }

  /**
   * When the event has characters: if game k is the first game without
   * selections and every value picked before it is a known id, the result is
   * empty, whatever earlier games held and whatever later games hold. If every
   * game has selections and every picked value is a known id, the result has no
   * duplicates and holds exactly the names of the values of the entrant's
   * CHARACTER selections.
   */
  lemma ResolvedNames(reply: Reply, entrantId: int)
    requires !NoCharacters(reply)
    ensures var games := GamesOf(reply.sets);
      var names := CharacterNames(reply.characters.value);
      forall k :: 0 <= k < |games| && Untracked(games[k]) && AllTracked(games[..k])
                  && KeysKnown(OwnedValues(games[..k], entrantId), names)
                  ==> Resolve(reply, entrantId) == Found([])
    ensures var games := GamesOf(reply.sets);
      var names := CharacterNames(reply.characters.value);
      var r := Resolve(reply, entrantId);
      AllTracked(games) && KeysKnown(OwnedValues(games, entrantId), names) ==>
        r.Found? && NoDuplicates(r.names)
        && forall name :: name in r.names <==> exists v :: v in OwnedValues(games, entrantId) && names[v] == name
  {
    var games := GamesOf(reply.sets);
    var names := CharacterNames(reply.characters.value);
    forall k | 0 <= k < |games| && Untracked(games[k]) && AllTracked(games[..k])
               && KeysKnown(OwnedValues(games[..k], entrantId), names)
      ensures Resolve(reply, entrantId) == Found([])
    {
      ScanGamesUntracked(games, names, entrantId, [], k);
    }
    if AllTracked(games) && KeysKnown(OwnedValues(games, entrantId), names) {
      ScanGamesKnown(games, names, entrantId, []);
      var values := OwnedValues(games, entrantId);
      assert [] + Lookup(values, names) == Lookup(values, names);
      forall name {
        LookupMembers(values, names, name);
      }
    }
  }

  /**
   * The `KeyError`: raised only for a value of one of the entrant's CHARACTER
   * selections that is not an id of the event's characters.
   */
  lemma MissingKeyIsUnknownPick(reply: Reply, entrantId: int)
    ensures Resolve(reply, entrantId).MissingKey? ==>
      !NoCharacters(reply)
      && Resolve(reply, entrantId).value in OwnedValues(GamesOf(reply.sets), entrantId)
      && Resolve(reply, entrantId).value !in CharacterNames(reply.characters.value)
  {
    if !NoCharacters(reply) {
      ScanGamesMissing(GamesOf(reply.sets), CharacterNames(reply.characters.value), entrantId, []);
    }
  }

  /**
   * Conversely, with characters present, an unknown value among the entrant's
   * picks in the first k games, all of which have selections, raises the `KeyError`.
   */
  lemma UnknownPickIsMissingKey(reply: Reply, entrantId: int, k: nat)
    requires !NoCharacters(reply)
    requires k <= |GamesOf(reply.sets)| && AllTracked(GamesOf(reply.sets)[..k])
    requires !KeysKnown(OwnedValues(GamesOf(reply.sets)[..k], entrantId), CharacterNames(reply.characters.value))
    ensures Resolve(reply, entrantId).MissingKey?
  {
    ScanGamesUnknown(GamesOf(reply.sets), CharacterNames(reply.characters.value), entrantId, [], k);
  }

  /** A game without selections comes first: the unknown pick in the game after it is never looked up. */
  lemma UntrackedBeforeUnknownPick()
    ensures Resolve(Reply(Some([Character(2, "Fox")]),
                          [SetNode(Some([Game(None), Game(Some([Selection(5, CHARACTER, 7)]))]))]),
                    5)
            == Found([])
  {
    var games := [Game(None), Game(Some([Selection(5, CHARACTER, 7)]))];
    assert GamesOf([SetNode(Some(games))]) == games;
    assert ScanGames(games, CharacterNames([Character(2, "Fox")]), 5, []) == NoSelections;
  }

  /** Two entrants picked the same character in one game: only the queried entrant's pick counts. */
  lemma OtherEntrantIgnored()
    ensures Resolve(Reply(Some([Character(2, "Fox")]),
                          [SetNode(Some([Game(Some([Selection(5, CHARACTER, 2), Selection(9, CHARACTER, 2)]))]))]),
                    5)
            == Found(["Fox"])
  {
    var sels := [Selection(5, CHARACTER, 2), Selection(9, CHARACTER, 2)];
    var names := CharacterNames([Character(2, "Fox")]);
    assert names == map[2 := "Fox"];
    assert ScanSelections(sels[1..], names, 5, ["Fox"]) == Scanned(["Fox"]) by {
      assert sels[1..][1..] == [];
    }
    assert Picked(sels[0], 5) && names[2] == "Fox" && [] + ["Fox"] == ["Fox"];
    assert ScanSelections(sels, names, 5, []) == Scanned(["Fox"]);
    var games := [Game(Some(sels))];
    assert GamesOf([SetNode(Some(games))]) == games;
    assert ScanGames(games, names, 5, []) == Scanned(["Fox"]) by {
      assert games[1..] == [];
    }
    assert Distinct(["Fox"]) == ["Fox"] by {
      assert ["Fox"][..0] == [];
    }
  }
}
