/**
  The state of the main screen, `MoodJournalApp` in src/app/page.tsx: the
  edited mood and note, the listed entries, the loading and unsaved flags, and
  the auto-save timer. React renders are not modelled; each method is one
  event together with the effect runs that follow the state it sets. A state
  setter that leaves a value as it was causes no effect run for that value,
  which is what the `deps` comparison in `AutoSaveEffect` captures.

  The two clock readings are parameters: `today` is what `getTodayDate()`
  returns at that moment (`TodayDate` in MoodStorage relates it to a time
  value) and `now` is the `Date.now()` that `saveMoodEntry` stamps.
 */
module JournalPage {
  import opened Wrappers
  import opened MoodStorage

  /** The scheduled `saveEntry` closure of one auto-save effect run: its
      identity in order of scheduling and the mood and note it captured. */
  datatype SaveTimer = SaveTimer(id: nat, mood: string, note: string)

  class MoodJournalApp {
    const store: Store
    var todayMood: string
    var todayNote: string
    var allEntries: seq<Entry>
    var isLoading: bool
    var hasUnsavedChanges: bool
    /** The one `setTimeout` not yet fired or cleared. */
    var pending: Option<SaveTimer>
    /** How many timers have been scheduled so far. */
    var timersSet: nat

    /** The timer belongs to the latest effect run and captured the current
        mood and note; nothing is scheduled while loading. */
    ghost predicate Valid()
      reads this
    {
      && (isLoading ==> pending.None?)
      && (pending.Some? ==>
            pending.value.id + 1 == timersSet
            && pending.value.mood == todayMood && pending.value.note == todayNote)
    }

    /** The auto-save effect's outcome, given the mood, note, loading flag,
        timer and timer count before the event: with its dependencies
        unchanged the effect does not run; otherwise its cleanup clears the
        old timer and, unless loading, a new one captures the current mood
        and note. */
    ghost predicate EffectRan(mood0: string, note0: string, loading0: bool,
                              pending0: Option<SaveTimer>, timers0: nat)
      reads this
    {
      if todayMood == mood0 && todayNote == note0 && isLoading == loading0 then
        pending == pending0 && timersSet == timers0
      else if isLoading then
        pending == None && timersSet == timers0
      else
        pending == Some(SaveTimer(timers0, todayMood, todayNote)) && timersSet == timers0 + 1
    }

    /** The first render: the initial state of every `useState`. Its effect
        runs find `isLoading` set, so no timer is scheduled. */
    constructor (store: Store)
      ensures this.store == store
      ensures todayMood == "" && todayNote == "" && allEntries == []
      ensures isLoading && !hasUnsavedChanges
      ensures pending == None && timersSet == 0
      ensures Valid()
    {
      this.store := store;
      todayMood := "";
      todayNote := "";
      allEntries := [];
      isLoading := true;
      hasUnsavedChanges := false;
      pending := None;
      timersSet := 0;
    }

    /** The body of the auto-save effect, run after a state change: compare
        the dependencies `[todayMood, todayNote, isLoading]` with their values
        at the previous run. */
    method AutoSaveEffect(mood0: string, note0: string, loading0: bool)
      modifies this
      ensures todayMood == old(todayMood) && todayNote == old(todayNote)
      ensures isLoading == old(isLoading) && allEntries == old(allEntries)
      ensures hasUnsavedChanges == old(hasUnsavedChanges)
      ensures EffectRan(mood0, note0, loading0, old(pending), old(timersSet))
    {
      if todayMood != mood0 || todayNote != note0 || isLoading != loading0 {
        pending := None;
        if !isLoading {
          pending := Some(SaveTimer(timersSet, todayMood, todayNote));
          timersSet := timersSet + 1;
        }
      }
    }

    /** `loadData`: take today's stored mood and note if there is an entry,
        list the sorted store, and end loading. */
    method LoadData(today: string)
      modifies this
      ensures store.Get(today).Some? ==>
        todayMood == store.Get(today).value.mood && todayNote == store.Get(today).value.note
      ensures store.Get(today).None? ==> todayMood == old(todayMood) && todayNote == old(todayNote)
      ensures allEntries == store.Sorted()
      ensures !isLoading && hasUnsavedChanges == old(hasUnsavedChanges)
      ensures pending == old(pending) && timersSet == old(timersSet)
    {
      var todayEntry := store.Get(today);
      var entries := store.Sorted();
      if todayEntry.Some? {
        todayMood, todayNote := todayEntry.value.mood, todayEntry.value.note;
      }
      allEntries, isLoading := entries, false;
    }

    /** The load effect on mount, then the auto-save effect run that follows:
        loading ended, so a save of what was loaded is scheduled. */
    method Mount(today: string)
      requires isLoading && Valid()
      modifies this
      ensures store.Get(today).Some? ==>
        todayMood == store.Get(today).value.mood && todayNote == store.Get(today).value.note
      ensures store.Get(today).None? ==> todayMood == old(todayMood) && todayNote == old(todayNote)
      ensures allEntries == store.Sorted()
      ensures !isLoading && hasUnsavedChanges == old(hasUnsavedChanges)
      ensures pending == Some(SaveTimer(old(timersSet), todayMood, todayNote))
      ensures timersSet == old(timersSet) + 1
      ensures Valid()
    {
      var mood0, note0, loading0 := todayMood, todayNote, isLoading;
      LoadData(today);
      AutoSaveEffect(mood0, note0, loading0);
    }

    /** `handleMoodSelect` */
    method HandleMoodSelect(mood: string)
      requires Valid()
      modifies this
      ensures todayMood == mood && todayNote == old(todayNote) && hasUnsavedChanges
      ensures isLoading == old(isLoading) && allEntries == old(allEntries)
      ensures EffectRan(old(todayMood), old(todayNote), old(isLoading), old(pending), old(timersSet))
      ensures mood == old(todayMood) ==> pending == old(pending) && timersSet == old(timersSet)
      ensures Valid()
    {
      var mood0, note0, loading0 := todayMood, todayNote, isLoading;
      todayMood := mood;
      hasUnsavedChanges := true;
      AutoSaveEffect(mood0, note0, loading0);
    }

    /** `handleNoteChange` */
    method HandleNoteChange(note: string)
      requires Valid()
      modifies this
      ensures todayNote == note && todayMood == old(todayMood) && hasUnsavedChanges
      ensures isLoading == old(isLoading) && allEntries == old(allEntries)
      ensures EffectRan(old(todayMood), old(todayNote), old(isLoading), old(pending), old(timersSet))
      ensures note == old(todayNote) ==> pending == old(pending) && timersSet == old(timersSet)
      ensures Valid()
    {
      var mood0, note0, loading0 := todayMood, todayNote, isLoading;
      todayNote := note;
      hasUnsavedChanges := true;
      AutoSaveEffect(mood0, note0, loading0);
    }

    /** `handleClearToday`: empty the mood and the note. The stored entry is
        left alone (see `SaveTimerFires`). */
    method HandleClearToday()
      requires Valid()
      modifies this
      ensures todayMood == "" && todayNote == "" && hasUnsavedChanges
      ensures isLoading == old(isLoading) && allEntries == old(allEntries)
      ensures EffectRan(old(todayMood), old(todayNote), old(isLoading), old(pending), old(timersSet))
      ensures old(todayMood) == "" && old(todayNote) == "" ==>
        pending == old(pending) && timersSet == old(timersSet)
      ensures Valid()
    {
      var mood0, note0, loading0 := todayMood, todayNote, isLoading;
      todayMood := "";
      todayNote := "";
      hasUnsavedChanges := true;
      AutoSaveEffect(mood0, note0, loading0);
    }

    /** The pending timer runs `saveEntry` with the mood and note it captured:
        an empty mood writes nothing; otherwise today's entry is saved and, if
        the write succeeded, the list is reloaded and the changes count as
        saved. No dependency changes, so no new timer follows. */
    method SaveTimerFires(today: string, now: int)
      requires pending.Some? && Valid()
      modifies this, store
      ensures pending == None && timersSet == old(timersSet)
      ensures todayMood == old(todayMood) && todayNote == old(todayNote) && isLoading == old(isLoading)
      ensures old(todayMood) == "" ==>
        unchanged(store) && allEntries == old(allEntries) && hasUnsavedChanges == old(hasUnsavedChanges)
      ensures store.hasWindow == old(store.hasWindow) && store.readFails == old(store.readFails)
      ensures store.writeFails == old(store.writeFails)
      ensures old(todayMood) != "" && store.hasWindow && !store.writeFails ==>
        store.item == Some(Stored(Put(old(store.Entries()), Draft(today, todayMood, todayNote), now)))
        && allEntries == store.Sorted() && !hasUnsavedChanges
      ensures old(todayMood) != "" && store.hasWindow && !store.writeFails && !store.readFails ==>
        store.Get(today) == Some(Entry(today, todayMood, todayNote, now))
      ensures !(store.hasWindow && !store.writeFails) ==>
        store.item == old(store.item) && allEntries == old(allEntries)
        && hasUnsavedChanges == old(hasUnsavedChanges)
      ensures old(store.KeysMatchDates()) ==> store.KeysMatchDates()
      ensures Valid()
    {
      var timer := pending.value;
      pending := None;
      if timer.mood != "" {
        var success := store.Save(Draft(today, timer.mood, timer.note), now);
        if success {
          allEntries := store.Sorted();
          hasUnsavedChanges := false;
        }
      }
    }

    /** Leaving the page: the effect's cleanup clears the pending timer. */
    method Unmount()
      requires Valid()
      modifies this
      ensures pending == None && timersSet == old(timersSet)
      ensures todayMood == old(todayMood) && todayNote == old(todayNote)
      ensures isLoading == old(isLoading) && allEntries == old(allEntries)
      ensures hasUnsavedChanges == old(hasUnsavedChanges)
      ensures Valid()
    {
      pending := None;
    }
  }
}
