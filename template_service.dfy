/**
 * The template service (src/services/template-service.ts): a template text per folder
 * path, held in memory and saved whole to the store's `data` entry. The store keeps the
 * record it was last given (what a read returns) apart from the record last flushed to
 * disk; whether a read or a flush succeeds is a parameter.
 */
module TemplateService {
  import opened Wrappers

  class Templates {
    /** The in-memory `templates` record. */
    var templates: map<string, string>
    /** The record the store holds under its `data` entry, if any: what a read returns. */
    var stored: Option<map<string, string>>
    /** The record last flushed to `templates.json`, if any. */
    var persisted: Option<map<string, string>>

    constructor (initial: Option<map<string, string>>)
      ensures templates == map[] && stored == initial && persisted == initial
    {
      templates := map[];
      stored := initial;
      persisted := initial;
    }

    /**
     * `loadTemplates`: the stored templates replace the in-memory ones; with nothing stored
     * or a failed read, the in-memory map becomes empty. The map is returned.
     */
    method LoadTemplates(readOk: bool) returns (r: map<string, string>)
      modifies this`templates
      ensures readOk && stored.Some? ==> templates == stored.value
      ensures !readOk || stored.None? ==> templates == map[]
      ensures r == templates
    {
      if readOk && stored.Some? {
        templates := stored.value;
      } else {
        templates := map[];
      }
      r := templates;
    }

    /**
     * `saveTemplates`: the whole map is set in the store, then flushed to disk; a failed
     * flush is reported, and the store keeps the map it was given.
     */
    method SaveTemplates(flushOk: bool) returns (r: Result<Unit>)
      modifies this`stored, this`persisted
      ensures stored == Some(templates)
      ensures r.Ok? <==> flushOk
      ensures flushOk ==> persisted == Some(templates)
      ensures !flushOk ==> persisted == old(persisted)
    {
      stored := Some(templates);
      if flushOk {
        persisted := stored;
        r := Ok(Unit);
      } else {
        r := Err("Failed to save templates");
      }
    }

    /** `getTemplate`. */
    function GetTemplate(folderPath: string): (r: Option<string>)
      reads this
      ensures r.Some? <==> folderPath in templates
      ensures r.Some? ==> r.value == templates[folderPath]
    {
      if folderPath in templates then Some(templates[folderPath]) else None
    }

    /**
     * `setTemplate`: the folder's template is set in memory, then the whole map is saved;
     * the in-memory change stays even when the flush fails.
     */
    method SetTemplate(folderPath: string, content: string, flushOk: bool) returns (r: Result<Unit>)
      modifies this
      ensures GetTemplate(folderPath) == Some(content)
      ensures forall p :: p != folderPath ==> GetTemplate(p) == old(GetTemplate(p))
      ensures stored == Some(templates)
      ensures r.Ok? <==> flushOk
      ensures flushOk ==> persisted == Some(templates)
      ensures !flushOk ==> persisted == old(persisted)
    {
      templates := templates[folderPath := content];
      r := SaveTemplates(flushOk);
    }

    /** `removeTemplate`: the folder's template is deleted in memory, then the whole map is saved. */
    method RemoveTemplate(folderPath: string, flushOk: bool) returns (r: Result<Unit>)
      modifies this
      ensures GetTemplate(folderPath) == None
      ensures forall p :: p != folderPath ==> GetTemplate(p) == old(GetTemplate(p))
      ensures stored == Some(templates)
      ensures r.Ok? <==> flushOk
      ensures flushOk ==> persisted == Some(templates)
      ensures !flushOk ==> persisted == old(persisted)
    {
      templates := templates - {folderPath};
      r := SaveTemplates(flushOk);
    }
  }

  /**
   * Setting a template and loading the templates back with a working read gives the map as
   * it was with that one folder's template set, whether or not the flush succeeded.
   */
  method SetThenLoad(t: Templates, folderPath: string, content: string, flushOk: bool)
    returns (loaded: map<string, string>)
    modifies t
    ensures loaded == t.templates
    ensures t.GetTemplate(folderPath) == Some(content)
    ensures forall p :: p != folderPath ==> t.GetTemplate(p) == old(t.GetTemplate(p))
  {
    var _ := t.SetTemplate(folderPath, content, flushOk);
    loaded := t.LoadTemplates(true);
  }
}
