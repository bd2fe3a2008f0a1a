/**
 * The server's registry: counters that hand out player, connection and game
 * ids, the maps from those ids to players, sockets and game sessions, and the
 * per-player projection of a game that is sent to a client.
 *
 * Ids are handed out by post-increment and nothing is ever removed, so each
 * map's keys are exactly the ids issued so far.
 */
module GameStorage {
  import opened Deck
  import opened GameSession

  type ConnectionId = nat
  type GameId = nat

  /** A registered player; names start empty, AI players are flagged. */
  datatype ServerPlayer = ServerPlayer(id: PlayerId, name: string, connectionId: ConnectionId, isAi: bool)

  /**
   * What a client is sent about a game. `playerCards` is the requester's own
   * hand, or None when the requester has no hand in this game.
   */
  datatype GameData = GameData(
    gameId: GameId,
    playerId: PlayerId,
    state: GameState,
    players: map<PlayerId, ServerPlayer>,
    playerTurn: PlayerId,
    melds: map<PlayerId, seq<Meld>>,
    playerCards: Option<seq<Card>>,
    otherPlayerCards: map<PlayerId, nat>,
    discardPile: seq<Card>,
    playerOrder: seq<PlayerId>)

  /**
   * The projection of game `g` for `playerId`: every listed player's public
   * record, everybody's melds and the discard pile, the requester's own hand,
   * and only the number of cards of every other listed player.
   */
  function ClientView(gameId: GameId, playerId: PlayerId, g: Game, directory: map<PlayerId, ServerPlayer>): (data: GameData)
    reads g
    requires forall p :: p in g.players ==> p in g.playerCards && p in directory
    ensures data.gameId == gameId && data.playerId == playerId && data.playerOrder == g.players
    ensures forall p :: p in data.otherPlayerCards <==> p in g.players && p != playerId
    ensures forall p :: p in data.otherPlayerCards ==> data.otherPlayerCards[p] == |g.playerCards[p]|
    ensures data.playerCards.Some? <==> playerId in g.playerCards
    ensures data.playerCards.Some? ==> data.playerCards.value == g.playerCards[playerId]
    ensures forall p :: p in data.players <==> p in g.players
    ensures forall p :: p in data.players ==> data.players[p] == directory[p]
  {
    GameData(
      gameId,
      playerId,
      g.state,
      map p | p in g.players :: directory[p],
      g.playerTurn,
      g.melds,
      if playerId in g.playerCards then Some(g.playerCards[playerId]) else None,
      map p | p in g.players && p != playerId :: |g.playerCards[p]|,
      g.discardPile,
      g.players)
  }

  /**
   * The projection hides the other players' cards: two games that differ
   * only in the contents of other players' hands, with the same hand sizes,
   * look the same to the requester.
   */
  lemma ViewHidesOtherHands(gameId: GameId, playerId: PlayerId, g1: Game, g2: Game, directory: map<PlayerId, ServerPlayer>)
    requires forall p :: p in g1.players ==> p in g1.playerCards && p in directory
    requires g2.players == g1.players
    requires forall p :: p in g2.players ==> p in g2.playerCards
    requires g2.state == g1.state && g2.playerTurn == g1.playerTurn
    requires g2.melds == g1.melds && g2.discardPile == g1.discardPile
    requires (playerId in g1.playerCards <==> playerId in g2.playerCards)
    requires playerId in g1.playerCards ==> g1.playerCards[playerId] == g2.playerCards[playerId]
    requires forall p :: p in g1.players ==> |g1.playerCards[p]| == |g2.playerCards[p]|
    ensures ClientView(gameId, playerId, g1, directory) == ClientView(gameId, playerId, g2, directory)
  {
    var v1 := ClientView(gameId, playerId, g1, directory);
    var v2 := ClientView(gameId, playerId, g2, directory);
    assert v1.otherPlayerCards == v2.otherPlayerCards;
  }

  /**
   * The registry. Sockets are opaque values of type `Socket`; nothing here
   * looks inside them.
   */
  class Storage<Socket> {
    var nextGameId: GameId
    var nextPlayerId: nat
    var nextConnectionId: ConnectionId
    var games: map<GameId, Game>
    var players: map<PlayerId, ServerPlayer>
    var connections: map<ConnectionId, Socket>

    /**
     * Each map holds exactly the ids its counter has handed out, and every
     * player record carries its own key as id.
     */
    ghost predicate Valid()
      reads this
    {
      && (forall g: GameId :: g in games <==> g < nextGameId)
      && (forall p :: p in players <==> 0 <= p < nextPlayerId)
      && (forall c: ConnectionId :: c in connections <==> c < nextConnectionId)
      && (forall p :: p in players ==> players[p].id == p)
    }

    constructor()
      ensures Valid()
      ensures nextGameId == 0 && nextPlayerId == 0 && nextConnectionId == 0
      ensures games == map[] && players == map[] && connections == map[]
    {
      nextGameId := 0;
      nextPlayerId := 0;
      nextConnectionId := 0;
      games := map[];
      players := map[];
      connections := map[];
    }

    /**
     * Registers a player under the next player id, with an empty name, and
     * returns that id: it is new, above every id issued before, and no other
     * counter or map changes.
     */
    method AddPlayer(connectionId: ConnectionId, isAi: bool := false) returns (id: PlayerId)
      requires Valid()
      modifies this
      ensures Valid()
      ensures id == old(nextPlayerId) && nextPlayerId == id + 1
      ensures id !in old(players) && forall q :: q in old(players) ==> q < id
      ensures players == old(players)[id := ServerPlayer(id, "", connectionId, isAi)]
      ensures nextGameId == old(nextGameId) && nextConnectionId == old(nextConnectionId)
      ensures games == old(games) && connections == old(connections)
    {
      id := GetNextPlayerID();
      players := players[id := ServerPlayer(id, "", connectionId, isAi)];
    }

    /** Post-increment of the player counter. */
    method GetNextPlayerID() returns (id: nat)
      modifies this
      ensures id == old(nextPlayerId) && nextPlayerId == id + 1
      ensures nextGameId == old(nextGameId) && nextConnectionId == old(nextConnectionId)
      ensures games == old(games) && players == old(players) && connections == old(connections)
    {
      id := nextPlayerId;
      nextPlayerId := nextPlayerId + 1;
    }

    /**
     * Registers a socket under the next connection id and returns that id:
     * it is new, above every id issued before, and nothing else changes.
     */
    method AddConnection(ws: Socket) returns (id: ConnectionId)
      requires Valid()
      modifies this
      ensures Valid()
      ensures id == old(nextConnectionId) && nextConnectionId == id + 1
      ensures id !in old(connections) && forall c :: c in old(connections) ==> c < id
      ensures connections == old(connections)[id := ws]
      ensures nextGameId == old(nextGameId) && nextPlayerId == old(nextPlayerId)
      ensures games == old(games) && players == old(players)
    {
      id := nextConnectionId;
      nextConnectionId := nextConnectionId + 1;
      connections := connections[id := ws];
    }

    /**
     * Creates a new game owned by `owner` (shuffled with `picks`) under the
     * next game id and returns that id: it is new, the game is waiting for
     * players with the owner alone on its roster, and nothing else changes.
     */
    method CreateGame(owner: PlayerId, picks: seq<nat>) returns (gameId: GameId)
      requires Valid() && AreShufflePicks(picks, NumCards)
      modifies this
      ensures Valid()
      ensures gameId == old(nextGameId) && nextGameId == gameId + 1
      ensures gameId !in old(games) && forall g :: g in old(games) ==> g < gameId
      ensures gameId in games && fresh(games[gameId])
      ensures games == old(games)[gameId := games[gameId]]
      ensures games[gameId].Valid() && games[gameId].owner == owner && games[gameId].players == [owner]
      ensures games[gameId].state == WaitingForPlayers
      ensures IsValidGame(gameId)
      ensures nextPlayerId == old(nextPlayerId) && nextConnectionId == old(nextConnectionId)
      ensures players == old(players) && connections == old(connections)
    {
      gameId := GetNextGameID();
      var game := new Game(owner, picks);
      games := games[gameId := game];
      assert forall g: GameId :: g in games <==> g < nextGameId;
    }

    /** Post-increment of the game counter. */
    method GetNextGameID() returns (id: GameId)
      modifies this
      ensures id == old(nextGameId) && nextGameId == id + 1
      ensures nextPlayerId == old(nextPlayerId) && nextConnectionId == old(nextConnectionId)
      ensures games == old(games) && players == old(players) && connections == old(connections)
    {
      id := nextGameId;
      nextGameId := nextGameId + 1;
    }

    /** A game id is valid exactly when it has been handed out. */
    predicate IsValidGame(gameId: GameId)
      reads this
      ensures Valid() ==> (IsValidGame(gameId) <==> gameId < nextGameId)
    {
      gameId in games
    }

    /**
     * The registry record of every player on the roster of game `gameId`,
     * keyed by player id. Every listed player must be registered (the source
     * asserts that each lookup succeeds).
     */
    method GatherPlayerDataFromGame(gameId: GameId) returns (roster: map<PlayerId, ServerPlayer>)
      requires gameId in games
      requires forall p :: p in games[gameId].players ==> p in players
      ensures forall p :: p in roster <==> p in games[gameId].players
      ensures forall p :: p in roster ==> roster[p] == players[p]
    {
      roster := map[];
      var game := games[gameId];
      for i := 0 to |game.players|
        invariant forall p :: p in roster <==> p in game.players[..i]
        invariant forall p :: p in roster ==> roster[p] == players[p]
      {
        var p := game.players[i];
        var player := players[p];
        roster := roster[p := player];
      }
      assert game.players[..|game.players|] == game.players;
    }

    /**
     * The game as client `playerId` sees it. The game must exist and be
     * well formed, and every player on its roster must be registered.
     */
    method ExtractClientGameData(gameId: GameId, playerId: PlayerId) returns (data: GameData)
      requires gameId in games && games[gameId].Valid()
      requires forall p :: p in games[gameId].players ==> p in players
      ensures data == ClientView(gameId, playerId, games[gameId], players)
    {
      var game := games[gameId];
      var otherPlayerCards: map<PlayerId, nat> := map[];
      for i := 0 to |game.players|
        invariant forall p :: p in otherPlayerCards <==> p in game.players[..i] && p != playerId
        invariant forall p :: p in otherPlayerCards ==> otherPlayerCards[p] == |game.playerCards[p]|
      {
        var p := game.players[i];
        if p == playerId {
          continue;
        }
        otherPlayerCards := otherPlayerCards[p := |game.playerCards[p]|];
      }
      assert game.players[..|game.players|] == game.players;
      var roster := GatherPlayerDataFromGame(gameId);
      var own := if playerId in game.playerCards then Some(game.playerCards[playerId]) else None;
      data := GameData(gameId, playerId, game.state, roster, game.playerTurn, game.melds,
        own, otherPlayerCards, game.discardPile, game.players);
      var view := ClientView(gameId, playerId, game, players);
      assert forall p :: p in data.players <==> p in view.players;
      assert data.players == view.players;
      assert forall p :: p in data.otherPlayerCards <==> p in view.otherPlayerCards;
      assert data.otherPlayerCards == view.otherPlayerCards;
    }
  }
}
