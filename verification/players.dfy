/** The server's list of known players and the key resolution that maps a
    display name to a player's unique id (checkForUUID). */
module Players {
  import opened Text

  /** An offline player: a display name and the string form of its UUID. */
  datatype Player = Player(name: string, id: string)

  predicate NameMatches(p: Player, input: string) {
    EqualsIgnoreCase(p.name, input)
  }

  /** Whether any known player's name equals `input` ignoring case. */
  predicate Known(players: seq<Player>, input: string) {
    exists i :: 0 <= i < |players| && NameMatches(players[i], input)
  }

  /** The id of the first player, in enumeration order, whose name equals
      `input` ignoring case; `input` itself when nobody matches. */
  function Resolve(players: seq<Player>, input: string): (key: string)
    ensures !Known(players, input) ==> key == input
    ensures Known(players, input) ==>
      exists i :: 0 <= i < |players| && NameMatches(players[i], input) && key == players[i].id
        && forall j :: 0 <= j < i ==> !NameMatches(players[j], input)
  {
    if |players| == 0 then input
    else if NameMatches(players[0], input) then players[0].id
    else
      var key := Resolve(players[1..], input);
      assert Known(players, input) ==> Known(players[1..], input) by {
        if Known(players, input) {
          var i :| 0 <= i < |players| && NameMatches(players[i], input);
          assert i != 0;
          assert NameMatches(players[1..][i - 1], input);
        }
      }
      assert Known(players[1..], input) ==>
        (exists i :: 0 <= i < |players| && NameMatches(players[i], input) && key == players[i].id
          && forall j :: 0 <= j < i ==> !NameMatches(players[j], input)) by {
        if Known(players[1..], input) {
          var i :| 0 <= i < |players[1..]| && NameMatches(players[1..][i], input) && key == players[1..][i].id
            && forall j :: 0 <= j < i ==> !NameMatches(players[1..][j], input);
          assert NameMatches(players[i + 1], input) && key == players[i + 1].id;
          forall j | 0 <= j < i + 1 ensures !NameMatches(players[j], input) {
            if j > 0 { assert players[j] == players[1..][j - 1]; }
          }
        }
      }
      key
  }

  /** A display name and any other spelling of it in different case resolve
      to the same key, so both reach the same chest. */
  lemma {:induction false} ResolveIgnoresCase(players: seq<Player>, a: string, b: string)
    requires Known(players, a)
    requires EqualsIgnoreCase(a, b)
    ensures Resolve(players, a) == Resolve(players, b)
    decreases |players|
  {
    assert NameMatches(players[0], a) <==> NameMatches(players[0], b);
    if !NameMatches(players[0], a) {
      var i :| 0 <= i < |players| && NameMatches(players[i], a);
      assert NameMatches(players[1..][i - 1], a);
      ResolveIgnoresCase(players[1..], a, b);
    }
  }
}
