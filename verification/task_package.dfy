/**
 * The keyed task store of the `task` package (task/task.go): a map updated in
 * place under a lock, persisted to the file named by `projectName` after
 * every `Set` and `Remove`, and reloaded from it by `Load`.
 */
module TaskPackage {
  import opened Common
  import opened KeyedStore

  class Task<T> {
    /** The map; `None` is a nil map, which only `Load` can install. */
    var taskMapList: MapValue<T>
    /** Unexported and never reassigned in this copy. */
    const projectName: string
    /** Every persisted snapshot, in order: file name and map value. */
    ghost var dumps: seq<(string, MapValue<T>)>

    /** `NewTask`: an empty map whose file name is "task.json"; nothing is
        written. */
    constructor ()
      ensures taskMapList == Some(map[]) && projectName == "task.json" && dumps == []
    {
      taskMapList := Some(map[]);
      projectName := "task.json";
      dumps := [];
    }

    /** Binds `taskId` to `t`, overwriting, then persists. Assigning into a
        nil map panics before anything changes: `panicked` reports that. */
    method Set(taskId: string, t: Option<T>) returns (panicked: bool)
      modifies this`taskMapList, this`dumps
      ensures panicked <==> old(taskMapList).None?
      ensures !panicked ==> taskMapList == Some(Bind(old(taskMapList).value, taskId, t))
      ensures !panicked ==> dumps == old(dumps) + [(projectName, taskMapList)]
      ensures panicked ==> taskMapList == old(taskMapList) && dumps == old(dumps)
    {
      if taskMapList.None? {
        return true;
      }
      taskMapList := Some(taskMapList.value[taskId := t]);
      Dump();
      return false;
    }

    /** The stored value when present and not nil, nil otherwise; a nil map
        reads as empty. */
    method Get(taskId: string) returns (v: Option<T>)
      ensures v == Lookup(Entries(taskMapList), taskId)
      ensures v.Some? <==> taskMapList.Some? && taskId in taskMapList.value && taskMapList.value[taskId].Some?
    {
      v := if taskMapList.Some? && taskId in taskMapList.value then taskMapList.value[taskId] else None;
      if v.Some? {
        return v;
      }
      return None;
    }

    /** Deletes `taskId` only when it holds a non-nil value, then persists
        whether or not anything was deleted. A nil map stays nil. */
    method Remove(taskId: string)
      modifies this`taskMapList, this`dumps
      ensures Entries(taskMapList) == Unbind(Entries(old(taskMapList)), taskId)
      ensures taskMapList.None? <==> old(taskMapList).None?
      ensures dumps == old(dumps) + [(projectName, taskMapList)]
    {
      var v := if taskMapList.Some? && taskId in taskMapList.value then taskMapList.value[taskId] else None;
      if v.Some? {
        taskMapList := Some(taskMapList.value - {taskId});
      }
      Dump();
    }

    /** Writing the map to `projectName`; only the fact that it happened,
        and with what, is recorded. */
    method Dump()
      modifies this`dumps
      ensures dumps == old(dumps) + [(projectName, taskMapList)]
    {
      dumps := dumps + [(projectName, taskMapList)];
    }

    /** `file` is what reading `projectName` and decoding it gave: `None`
        when the read returned nil bytes, otherwise the map value decoding
        left behind, its error being ignored. That value is the nil map when
        the file holds JSON `null`. Only when the read succeeded is the map
        replaced. */
    method Load(file: Option<MapValue<T>>)
      modifies this`taskMapList
      ensures file.Some? ==> taskMapList == file.value
      ensures file.None? ==> taskMapList == old(taskMapList)
    {
      if file.Some? {
        taskMapList := file.value;
      }
    }
  }
}
