/**
 The `Is_Launch` normaliser (app.py:532-536 and app.py:934-939): the text of
 the cell is stripped and lower-cased, looked up in a fixed dictionary of yes
 and no words, and a text outside the dictionary becomes `False`.
 */
module LaunchFlag {
  import opened Wrappers
  import opened Strings

  /** The words the dictionary maps to `True`. */
  const YesWords: set<string> := {"true", "sim", "yes", "1"}

  /** The words the dictionary maps to `False`. */
  const NoWords: set<string> := {"false", "não", "nao", "no", "0"}

  /** The dictionary passed to `Series.map`. */
  const LaunchWords: map<string, bool> := map[
    "true" := true, "sim" := true, "yes" := true, "1" := true,
    "false" := false, "não" := false, "nao" := false, "no" := false, "0" := false
  ]

  /** `astype(str).str.strip().str.lower()` on the cell's text. */
  function LaunchKey(s: string): string
  {
    Lower(Strip(s))
  }

  /**
   `Series.map(LaunchWords)`: `None` stands for the NaN a word outside the
   dictionary maps to. A text is found exactly when its trimmed, lower-cased
   form is a yes or a no word, and the answer is yes exactly for a yes word.
   */
  function LookupLaunch(s: string): (r: Option<bool>)
    ensures r.Some? <==> LaunchKey(s) in YesWords + NoWords
    ensures r.Some? ==> (r.value <==> LaunchKey(s) in YesWords)
  {
    LaunchWordsSplit();
    var key := LaunchKey(s);
    if key in LaunchWords then Some(LaunchWords[key]) else None
  }

  /** The flag after `fillna(False)`: set exactly for a yes word; every no word and every unknown text gives `False`. */
  function IsLaunch(s: string): (r: bool)
    ensures r <==> LaunchKey(s) in YesWords
  {
    match LookupLaunch(s)
    case Some(b) => b
    case None => false
  }

  /** The dictionary is two-sided: its keys are the yes words and the no words, and it says yes exactly on the yes words. */
  lemma LaunchWordsSplit()
    ensures LaunchWords.Keys == YesWords + NoWords
    ensures YesWords * NoWords == {}
    ensures forall w :: w in LaunchWords ==> (LaunchWords[w] <==> w in YesWords)
  {
  }
}
