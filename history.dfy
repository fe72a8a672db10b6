/** The content history of `InstagramContentGenerator`: a JSON array kept in
    `content_history.json`, read whole, extended by one entry, written whole.
    The file is modelled by whether it exists and the entries it holds. */
module History {

  /** One record of the history file. */
  datatype Entry = Entry(timestamp: string, topic: string, content: string)

  class HistoryFile {
    /** Whether `content_history.json` exists. */
    var present: bool
    /** The decoded array, meaningful only while the file exists. */
    var entries: seq<Entry>

    /** An absent file holds nothing. */
    ghost predicate Valid()
      reads this
    {
      present || entries == []
    }

    /** An output directory without a history file. */
    constructor Absent()
      ensures Valid() && !present && entries == []
    {
      present := false;
      entries := [];
    }

    /** An output directory whose history file already holds `initial`. */
    constructor Present(initial: seq<Entry>)
      ensures Valid() && present && entries == initial
    {
      present := true;
      entries := initial;
    }

    /** `_save_content_history`: load the array (empty if the file is absent), append one entry,
        write it back. The file exists afterwards and nothing before the new entry changes. */
    method SaveContentHistory(timestamp: string, topic: string, content: string)
      requires Valid()
      modifies this
      ensures Valid() && present
      ensures entries == (if old(present) then old(entries) else []) + [Entry(timestamp, topic, content)]
      ensures |entries| == |old(entries)| + 1
      ensures entries[..|entries| - 1] == old(entries)
    {
      var history: seq<Entry>;
      if present {
        history := entries;
      } else {
        history := [];
      }
      history := history + [Entry(timestamp, topic, content)];
      present, entries := true, history;
    }

    /** `get_content_history`: the stored entries, or the empty list when the file is absent. */
    method GetContentHistory() returns (history: seq<Entry>)
      ensures present ==> history == entries
      ensures !present ==> history == []
    {
      if present {
        return entries;
      }
      return [];
    }
  }

  /** Three saves on a fresh directory read back as three entries in save order,
      and an absent file reads as empty. */
  method SequentialSavesKeepOrder()
  {
    var file := new HistoryFile.Absent();
    var h := file.GetContentHistory();
    assert h == [];
    file.SaveContentHistory("2024-01-01T00:00:00", "Wine 1", "c1");
    file.SaveContentHistory("2024-01-01T00:00:01", "Wine 2", "c2");
    file.SaveContentHistory("2024-01-01T00:00:02", "Wine 3", "c3");
    h := file.GetContentHistory();
    assert |h| == 3;
    assert h[0].topic == "Wine 1" && h[1].topic == "Wine 2" && h[2].topic == "Wine 3";
    assert h[1].timestamp == "2024-01-01T00:00:01";
  }
}
