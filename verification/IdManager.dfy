/** RemoteControlIdManager: its five maps and the methods that update them in place
    (src/remoteControlIdManager.h, src/remoteControlIdManager.cpp). */
module IdManager {
  import opened IdTables
  import opened Options
  import opened Probing
  import opened Texts

  class RemoteControlIdManager {
    var playlistByAimpId: map<Text, nat>
    var playlistByPluginId: map<nat, Text>
    var itemByAimpKey: map<ItemKey, nat>
    var itemByPluginId: map<nat, ItemKey>
    var itemsByPlaylist: map<Text, set<nat>>

    /** The five maps as one value. */
    ghost function Contents(): Tables
      reads this
    {
      Tables(Registry(playlistByAimpId, playlistByPluginId),
             Registry(itemByAimpKey, itemByPluginId),
             itemsByPlaylist)
    }

    ghost predicate Valid()
      reads this
    {
      Contents().Valid()
    }

    constructor ()
      ensures Valid() && Contents() == EMPTY
    {
      playlistByAimpId, playlistByPluginId := map[], map[];
      itemByAimpKey, itemByPluginId, itemsByPlaylist := map[], map[], map[];
    }

    /** None where the program's 32-bit increment would overflow. Without other threads the second
        look-up, under the exclusive lock, finds what the first found; with them, see IdConcurrency. */
    method PlaylistGetOrGeneratePluginId(aimpPlaylistId: Text) returns (pluginId: Option<nat>)
      requires Valid()
      modifies this
      ensures Valid()
      ensures pluginId == old(Contents()).playlists.Answer(HashOf(aimpPlaylistId), aimpPlaylistId)
      ensures Contents() == old(Contents()).RequestPlaylist(aimpPlaylistId)
      ensures pluginId.Some? ==>
        pluginId.value in playlistByPluginId && playlistByPluginId[pluginId.value] == aimpPlaylistId
    {
      hide HashOf;
      RequestPlaylistValid(Contents(), aimpPlaylistId);
      if aimpPlaylistId in playlistByAimpId {
        return Some(playlistByAimpId[aimpPlaylistId]);
      }
      var increments;
      pluginId, increments := Search(playlistByPluginId.Keys, HashOf(aimpPlaylistId));
      if pluginId.Some? {
        playlistByAimpId := playlistByAimpId[aimpPlaylistId := pluginId.value];
        playlistByPluginId := playlistByPluginId[pluginId.value := aimpPlaylistId];
      }
    }

    /** The empty text for an unknown identifier. */
    method PlaylistGetKey(pluginId: int) returns (key: Text)
      requires Valid()
      ensures key == if pluginId in playlistByPluginId then playlistByPluginId[pluginId] else []
      ensures pluginId in playlistByPluginId ==> key in playlistByAimpId && playlistByAimpId[key] == pluginId
    {
      key := if pluginId in playlistByPluginId then playlistByPluginId[pluginId] else [];
    }

    method PlaylistItemGetOrGeneratePluginId(aimpPlaylistId: Text, aimpPlaylistIndex: int)
      returns (pluginId: Option<nat>)
      requires Valid()
      modifies this
      ensures Valid()
      ensures var key := ItemKey(aimpPlaylistId, aimpPlaylistIndex);
        && pluginId == old(Contents()).items.Answer(ItemHash(key), key)
        && Contents() == old(Contents()).RequestItem(key)
        && (pluginId.Some? ==> pluginId.value in itemByPluginId && itemByPluginId[pluginId.value] == key)
    {
      hide HashOf, Decimal, Tables.Valid, Registry.Valid;
      var key := ItemKey(aimpPlaylistId, aimpPlaylistIndex);
      RequestItemValid(Contents(), key);
      if key in itemByAimpKey {
        return Some(itemByAimpKey[key]);
      }
      var seed := aimpPlaylistId + [':'] + Decimal(aimpPlaylistIndex);
      assert seed == Seed(key);
      var increments;
      pluginId, increments := Search(itemByPluginId.Keys, HashOf(seed));
      if pluginId.Some? {
        itemByAimpKey := itemByAimpKey[key := pluginId.value];
        itemByPluginId := itemByPluginId[pluginId.value := key];
        var group := if aimpPlaylistId in itemsByPlaylist then itemsByPlaylist[aimpPlaylistId] else {};
        itemsByPlaylist := itemsByPlaylist[aimpPlaylistId := group + {pluginId.value}];
      }
    }

    /** An empty key for an unknown identifier. */
    method PlaylistItemGetKey(pluginId: int) returns (key: ItemKey)
      requires Valid()
      ensures key == if pluginId in itemByPluginId then itemByPluginId[pluginId] else ItemKey([], 0)
      ensures pluginId in itemByPluginId ==> key in itemByAimpKey && itemByAimpKey[key] == pluginId
    {
      key := if pluginId in itemByPluginId then itemByPluginId[pluginId] else ItemKey([], 0);
    }

    method PlaylistRemoveByKey(aimpPlaylistId: Text)
      requires Valid()
      modifies this
      ensures Valid()
      ensures Contents() == old(Contents()).WithoutItems(aimpPlaylistId).WithoutPlaylist(aimpPlaylistId)
    {
      PlaylistItemsRemoveByPlaylistKeyUnlocked(aimpPlaylistId);
      PlaylistRemoveByKeyUnlocked(aimpPlaylistId);
    }

    method PlaylistItemsRemoveByPlaylistKey(aimpPlaylistId: Text)
      requires Valid()
      modifies this
      ensures Valid()
      ensures Contents() == old(Contents()).WithoutItems(aimpPlaylistId)
    {
      PlaylistItemsRemoveByPlaylistKeyUnlocked(aimpPlaylistId);
    }

    method PlaylistRemoveByKeyUnlocked(aimpPlaylistId: Text)
      requires Valid()
      modifies this
      ensures Valid()
      ensures Contents() == old(Contents()).WithoutPlaylist(aimpPlaylistId)
    {
      WithoutPlaylistValid(Contents(), aimpPlaylistId);
      ghost var goal := Contents().WithoutPlaylist(aimpPlaylistId);
      if aimpPlaylistId in playlistByAimpId {
        playlistByPluginId := playlistByPluginId - {playlistByAimpId[aimpPlaylistId]};
        playlistByAimpId := playlistByAimpId - {aimpPlaylistId};
      }
      assert Contents().playlists.byKey == goal.playlists.byKey;
    }

    method PlaylistItemsRemoveByPlaylistKeyUnlocked(aimpPlaylistId: Text)
      requires Valid()
      modifies this
      ensures Valid()
      ensures Contents() == old(Contents()).WithoutItems(aimpPlaylistId)
    {
      ghost var before := Contents();
      WithoutItemsValid(before, aimpPlaylistId);
      if aimpPlaylistId !in itemsByPlaylist {
        return;
      }
      var group := itemsByPlaylist[aimpPlaylistId];
      EraseItems(group);
      itemsByPlaylist := itemsByPlaylist - {aimpPlaylistId};
    }

    /** The removal loop: erases the entries of one group from both item maps, in no particular order. */
    method EraseItems(group: set<nat>)
      requires Contents().items.Valid()
      modifies `itemByAimpKey, `itemByPluginId
      ensures Contents().items == old(Contents()).items.Without(group)
    {
      ghost var before := Contents().items;
      var todo := group;
      WithoutNone(before);
      while todo != {}
        invariant todo <= group
        invariant Contents().items == before.Without(group - todo)
        decreases todo
      {
        var pluginId :| pluginId in todo;
        WithoutOneMore(before, group - todo, pluginId);
        assert group - (todo - {pluginId}) == group - todo + {pluginId};
        if pluginId in itemByPluginId {
          itemByAimpKey := itemByAimpKey - {itemByPluginId[pluginId]};
          itemByPluginId := itemByPluginId - {pluginId};
        }
        todo := todo - {pluginId};
      }
      assert group - {} == group;
    }
  }
}
