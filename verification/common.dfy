/** Shared vocabulary of the back office: identifiers, optional values,
    the error catalogue of the services and controllers, and user records. */
module Common {

  /** Document identifiers. The store assigns them; only equality matters.
      An id stands for its string form, which is what the code compares. */
  type UserId = nat
  type GroupId = nat
  type MessageId = nat
  type TaskId = nat

  /** Timestamps (milliseconds since the epoch, as `Date` values compare). */
  type Time = int

  datatype Option<+T> = None | Some(value: T)

  /** The outcome of an operation: a value, or the error the source throws. */
  datatype Result<+T> = Ok(value: T) | Err(error: Error)

  /** One constructor per distinct error the modelled code throws; the
      comment gives the message text the client receives. */
  datatype Error =
    | SenderOrReceiverNotFound   // "Expéditeur ou destinataire introuvable"
    | OtherUserRequired          // "L'ID de l'autre utilisateur est requis."
    | MessageNotFound            // "Message introuvable"
    | NotMessageSender           // "Accès interdit : vous ne pouvez supprimer que vos propres messages"
    | ContactDetailsMissing      // TypeError: reading `_id` of an undefined sender/receiver record
    | ProjectNotFound            // "Projet introuvable"
    | NotGroupMember             // "Accès interdit : Vous ne faites pas partie de ce projet"
    | NameRequired               // "Le nom du projet est requis"
    | OnlyOwnerMayAdd            // "Accès interdit : Seul le créateur du projet peut ajouter des membres"
    | UserNotFound               // "Utilisateur introuvable"
    | AlreadyMember              // "L'utilisateur fait déjà partie du projet"
    | OnlyOwnerMayDelete         // "Accès interdit : Seul le créateur du projet peut le supprimer"
    | TitleAndProjectIdRequired  // "Le titre et l'ID du projet sont requis"
    | NotProjectMember           // "Accès interdit : Vous n'êtes pas membre de ce projet"
    | TaskNotFound               // "Tâche introuvable"
    | AssociatedProjectNotFound  // "Projet associé introuvable"
    | NotAllowedToUpdate         // "Accès interdit : Vous n'êtes pas autorisé à modifier cette tâche"
    | NotAllowedToDelete         // "Accès interdit : Vous n'êtes pas autorisé à supprimer cette tâche"
    | TitleAndProjectRequired    // "Le titre et le projet sont requis"
    | AccessDenied               // "Accès interdit"
    | ValidationFailed           // a Mongoose schema validation error raised by `save`

  /** JavaScript truthiness of an optional string: absent and "" are falsy. */
  predicate Truthy(s: Option<string>) {
    s.Some? && s.value != ""
  }

  /** The public part of a user document, as `select("lastname firstname username createdAt")` returns it. */
  datatype Profile = Profile(lastname: string, firstname: string, username: string, createdAt: Time)

  datatype User = User(id: UserId, profile: Profile)

  /** The user collection, in natural order. `_id` is unique in a collection. */
  ghost predicate UniqueUserIds(users: seq<User>) {
    forall i, j :: 0 <= i < j < |users| ==> users[i].id != users[j].id
  }

  /** `User.findById(id)` finds a document. */
  predicate UserExists(users: seq<User>, id: UserId) {
    exists i :: 0 <= i < |users| && users[i].id == id
  }

  /** `User.findById` on an optional id: `findById(undefined)` finds nothing. */
  predicate MaybeUserExists(users: seq<User>, id: Option<UserId>) {
    id.Some? && UserExists(users, id.value)
  }
}
