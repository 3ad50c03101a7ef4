/** The rows of the job-offer table and the user's selection. Every cell may
    be missing (pandas NaN), so every field is an Option. */
module Records {
  import opened Wrappers
  import Calendar

  /** One row of the offers table, with the eight columns the application reads:
      Organisme de rattachement, Intitulé du poste, Localisation du poste,
      Date de première publication (dd/mm/yyyy text), Référence, Catégorie,
      Versant, Nature de l'emploi. */
  datatype Offer = Offer(
    organisme: Option<string>,
    intitule: Option<string>,
    localisation: Option<string>,
    datePublication: Option<string>,
    reference: Option<string>,
    categorie: Option<string>,
    versant: Option<string>,
    nature: Option<string>)

  /** The values chosen in the four multiselect widgets. */
  datatype Selection = Selection(
    versant: seq<string>,
    categorie: seq<string>,
    nature: seq<string>,
    localisation: seq<string>)

  /** One row of the final table: the five projected columns, the
      publication date parsed (None is NaT), the link and its clickable copy. */
  datatype ViewRow = ViewRow(
    organisme: Option<string>,
    intitule: Option<string>,
    localisation: Option<string>,
    published: Option<Calendar.Date>,
    reference: Option<string>,
    lien: string,
    cliquable: string)
}
